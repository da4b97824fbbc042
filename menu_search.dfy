/**
 * The per-store price search of the Florida heatmap builder: the nested scan of a decoded
 * menu document for the first item named "Classic Luxe Box", and the regular expression
 * `\$?(\d+\.?\d*)` that pulls a number out of that item's price string.
 *
 * A menu document is JSON. Only the shapes the search can meet are modelled; each "Other"
 * variant stands for a JSON value on which the search's Python code raises an exception
 * (a `.get` on something that is not an object, `.items()` on something that is not an
 * object, iteration over a number, `re.search` on a non-string).
 */
module MenuSearch {
  import opened Wrappers
  import opened Decimal

  const Target: string := "Classic Luxe Box"

  /** The `price` member of a menu item, when present. */
  datatype PriceJson = PriceText(text: string) | PriceOther

  /** An element of a category's item list. `name` is None when the member is absent or not a string. */
  datatype ItemJson = ItemObject(name: Option<string>, price: Option<PriceJson>) | ItemOther

  /**
   * The value stored under a category name. A list, an object (iterated over its keys) and a
   * string (iterated over its characters) are all iterable and become ItemSeq; keys and
   * characters are ItemOther. Numbers, booleans and null are not iterable.
   */
  datatype ItemsJson = ItemSeq(elems: seq<ItemJson>) | ItemsNotIterable

  datatype CategoryEntry = CategoryEntry(name: string, items: ItemsJson)

  /** The `categories` member: an object (its entries in document order) or any other value. */
  datatype CategoriesJson = CategoryMap(entries: seq<CategoryEntry>) | CategoriesOther

  /** A decoded menu file; `categories` is None when the member is absent. */
  datatype MenuJson = MenuObject(categories: Option<CategoriesJson>) | MenuOther

  /** The exception the search raises, named after the value it tripped over. */
  datatype Cause = MenuNotObject | CategoriesNotObject | ItemsNotIterableCause | ItemNotObject | PriceNotText

  /** Outcome of the search: a numeric price, no numeric price, or an exception. */
  datatype Search = Priced(price: real) | Unpriced | Failed(cause: Cause)

  // ---------------------------------------------------------------------------
  // The regular expression \$?(\d+\.?\d*) under re.search

  /** Where group 1 ends when it starts at digit position `d`: `\d+`, then `\.?`, then `\d*`, all greedy. */
  function GroupEnd(s: string, d: nat): (e: nat)
    requires d < |s| && IsDigit(s[d])
    ensures d < e <= |s|
  {
    var e1 := DigitRunEnd(s, d);
    if e1 < |s| && s[e1] == '.' then DigitRunEnd(s, e1 + 1) else e1
  }

  /**
   * The match attempted at position `k`, as the start of group 1. `\$?` first tries to take
   * a '$'; if no digit follows, it backtracks to the empty choice, which needs a digit at `k`.
   */
  function PriceMatchAt(s: string, k: nat): Option<nat>
    requires k <= |s|
  {
    if k + 1 < |s| && s[k] == '$' && IsDigit(s[k + 1]) then Some(k + 1)
    else if k < |s| && IsDigit(s[k]) then Some(k)
    else None
  }

  /** re.search: the leftmost position at or after `k` where a match exists, as the start of group 1. */
  function SearchFrom(s: string, k: nat): (r: Option<nat>)
    requires k <= |s|
    ensures r.Some? ==> k <= r.value < |s| && IsDigit(s[r.value])
    decreases |s| - k
  {
    match PriceMatchAt(s, k)
    case Some(d) => Some(d)
    case None => if k < |s| then SearchFrom(s, k + 1) else None
  }

  /** The value `float(m.group(1))` of the first match, computed exactly; None when nothing matches. */
  function ExtractPrice(s: string): (r: Option<real>)
    ensures r.None? <==> forall i :: 0 <= i < |s| ==> !IsDigit(s[i])
  {
    NoMatchIffNoDigit(s, 0);
    match SearchFrom(s, 0)
    case None => None
    case Some(d) =>
      var e1 := DigitRunEnd(s, d);
      var e := GroupEnd(s, d);
      Some(DecimalValue(s[d..e1], if e > e1 then s[e1 + 1..e] else ""))
  }

  lemma {:induction false} NoMatchIffNoDigit(s: string, k: nat)
    requires k <= |s|
    ensures SearchFrom(s, k).None? <==> forall i :: k <= i < |s| ==> !IsDigit(s[i])
    decreases |s| - k
  {
    if k < |s| && PriceMatchAt(s, k).None? {
      NoMatchIffNoDigit(s, k + 1);
    }
  }

  /** The search starts group 1 at the first digit of the string, whether or not a '$' precedes it. */
  lemma {:induction false} SearchFindsFirstDigit(s: string, k: nat, d: nat)
    requires k <= d < |s| && IsDigit(s[d])
    requires forall i :: k <= i < d ==> !IsDigit(s[i])
    ensures SearchFrom(s, k) == Some(d)
    decreases d - k
  {
    if k < d {
      SearchFindsFirstDigit(s, k + 1, d);
    }
  }

  /**
   * The first number wins: in `p + whole + "." + frac + t`, where `p` holds no digit and `t`
   * does not continue the fraction, the extracted price is exactly whole.frac.
   */
  lemma ExtractFirstDecimal(s: string, p: string, whole: string, frac: string, t: string)
    requires s == p + whole + "." + frac + t
    requires forall i :: 0 <= i < |p| ==> !IsDigit(p[i])
    requires whole != [] && AllDigits(whole) && AllDigits(frac)
    requires t == [] || !IsDigit(t[0])
    ensures ExtractPrice(s) == Some(DecimalValue(whole, frac))
  {
    var d, e1 := |p|, |p| + |whole|;
    var e := e1 + 1 + |frac|;
    assert s[d..e1] == whole;
    assert s[e1] == '.';
    assert s[e1 + 1..e] == frac;
    assert e == |s| || s[e] == t[0];
    SearchFindsFirstDigit(s, 0, d);
    DigitRunEndOf(s, d, whole);
    DigitRunEndOf(s, e1 + 1, frac);
    assert GroupEnd(s, d) == e;
  }

  /** Without a decimal point: in `s == p + whole + t`, the price is the integer `whole`. */
  lemma ExtractFirstInteger(s: string, p: string, whole: string, t: string)
    requires s == p + whole + t
    requires forall i :: 0 <= i < |p| ==> !IsDigit(p[i])
    requires whole != [] && AllDigits(whole)
    requires t == [] || (!IsDigit(t[0]) && t[0] != '.')
    ensures ExtractPrice(s) == Some(NatOf(whole) as real)
  {
    var d, e1 := |p|, |p| + |whole|;
    SearchFindsFirstDigit(s, 0, d);
    assert s[d..e1] == whole;
    assert e1 == |s| || s[e1] == t[0];
    DigitRunEndOf(s, d, whole);
    assert GroupEnd(s, d) == e1;
    assert DecimalValue(whole, "") == NatOf(whole) as real by {
      assert NatOf("") == 0 && Pow10(0) == 1;
    }
  }

  /** "$5.00" gives 5.0. */
  lemma ExtractDollarFive(s: string)
    requires s == "$5.00"
    ensures ExtractPrice(s) == Some(5.0)
  {
    assert s == "$" + "5" + "." + "00" + "";
    ExtractFirstDecimal(s, "$", "5", "00", "");
    FiveDollars();
  }

  lemma FiveDollars()
    ensures DecimalValue("5", "00") == 5.0
  {
    assert NatOf("5") == 5 by { assert "5"[..0] == ""; }
    assert NatOf("00") == 0 by { assert "00"[..1] == "0"; assert "0"[..0] == ""; }
  }

  /** "5" gives 5.0. */
  lemma ExtractPlainFive(s: string)
    requires s == "5"
    ensures ExtractPrice(s) == Some(5.0)
  {
    ExtractFirstInteger(s, "", "5", "");
    assert NatOf("5") == 5 by { assert "5"[..0] == ""; }
  }

  /** "Price: $12.50 each" gives 12.5: the number need not start the string. */
  lemma ExtractEmbeddedPrice(s: string)
    requires s == "Price: $12.50 each"
    ensures ExtractPrice(s) == Some(12.5)
  {
    var p := "Price: $";
    assert s == p + "12" + "." + "50" + " each";
    assert forall i :: 0 <= i < |p| ==> !IsDigit(p[i]);
    ExtractFirstDecimal(s, p, "12", "50", " each");
    TwelveFifty();
  }

  lemma TwelveFifty()
    ensures DecimalValue("12", "50") == 12.5
  {
    assert NatOf("12") == 12 by { assert "12"[..1] == "1"; assert "1"[..0] == ""; }
    assert NatOf("50") == 50 by { assert "50"[..1] == "5"; assert "5"[..0] == ""; }
    assert Pow10(2) == 100;
  }

  /** A price string without a digit, and the default '' for a missing price, give no price. */
  lemma ExtractNoDigit(s: string)
    requires s == "Market Price"
    ensures ExtractPrice(s) == None
    ensures ExtractPrice("") == None
  {
    assert forall i :: 0 <= i < |s| ==> !IsDigit(s[i]);
  }

  // ---------------------------------------------------------------------------
  // The nested category / item search, as a specification

  /** What the first item named Target contributes: `item.get('price', '')` run through the regex. */
  function ItemVerdict(price: Option<PriceJson>): Search {
    match price
    case None => if ExtractPrice("").Some? then Priced(ExtractPrice("").value) else Unpriced
    case Some(PriceOther) => Failed(PriceNotText)
    case Some(PriceText(t)) => if ExtractPrice(t).Some? then Priced(ExtractPrice(t).value) else Unpriced
  }

  predicate IsTarget(item: ItemJson) {
    item.ItemObject? && item.name == Some(Target)
  }

  /** The inner loop: the verdict of the first item named Target, after which the loop breaks. */
  function ItemsScan(items: seq<ItemJson>): Search {
    if items == [] then Unpriced
    else if items[0].ItemOther? then Failed(ItemNotObject)
    else if IsTarget(items[0]) then ItemVerdict(items[0].price)
    else ItemsScan(items[1..])
  }

  function CategoryScan(items: ItemsJson): Search {
    match items
    case ItemsNotIterable => Failed(ItemsNotIterableCause)
    case ItemSeq(elems) => ItemsScan(elems)
  }

  /** The outer loop: it moves on to the next category only while no numeric price was found. */
  function CategoriesScan(cs: seq<CategoryEntry>): Search {
    if cs == [] then Unpriced
    else
      var v := CategoryScan(cs[0].items);
      if v.Unpriced? then CategoriesScan(cs[1..]) else v
  }

  /** The whole search on a decoded menu file. */
  function MenuPrice(menu: MenuJson): Search {
    match menu
    case MenuOther => Failed(MenuNotObject)
    case MenuObject(None) => Unpriced
    case MenuObject(Some(CategoriesOther)) => Failed(CategoriesNotObject)
    case MenuObject(Some(CategoryMap(cs))) => CategoriesScan(cs)
  }

  // ---------------------------------------------------------------------------
  // The nested loop as the script runs it

  /** The two nested `for` loops with their two `break`s; an exception ends the search at once. */
  method FindClassicLuxePrice(menu: MenuJson) returns (r: Search)
    ensures r == MenuPrice(menu)
  {
    if menu.MenuOther? {
      return Failed(MenuNotObject);
    }
    if menu.categories.None? {
      return Unpriced;
    }
    if menu.categories.value.CategoriesOther? {
      return Failed(CategoriesNotObject);
    }
    var cs := menu.categories.value.entries;
    var price: Option<real> := None;
    var i := 0;
    while i < |cs|
      invariant 0 <= i <= |cs|
      invariant price.None?
      invariant CategoriesScan(cs) == CategoriesScan(cs[i..])
    {
      if cs[i].items.ItemsNotIterable? {
        return Failed(ItemsNotIterableCause);
      }
      var items := cs[i].items.elems;
      var j := 0;
      while j < |items|
        invariant 0 <= j <= |items|
        invariant price.None?
        invariant ItemsScan(items) == ItemsScan(items[j..])
      {
        var item := items[j];
        if item.ItemOther? {
          return Failed(ItemNotObject);
        }
        if item.name == Some(Target) {
          var priceStr := "";
          if item.price.Some? {
            if item.price.value.PriceOther? {
              return Failed(PriceNotText);
            }
            priceStr := item.price.value.text;
          }
          var m := ExtractPrice(priceStr);
          if m.Some? {
            price := m;
          }
          assert ItemsScan(items) == if price.Some? then Priced(price.value) else Unpriced;
          break;
        }
        j := j + 1;
      }
      assert CategoryScan(cs[i].items) == if price.Some? then Priced(price.value) else Unpriced;
      assert cs[i..][1..] == cs[i + 1..];
      if price.Some? {
        assert CategoriesScan(cs) == Priced(price.value);
        break;
      }
      i := i + 1;
    }
    r := if price.Some? then Priced(price.value) else Unpriced;
  }

  // ---------------------------------------------------------------------------
  // The stopping rules

  /**
   * Within a category only the first item named Target is examined: whatever follows it,
   * even an item that would raise, is never looked at.
   */
  lemma {:induction false} OnlyFirstMatchExamined(pre: seq<ItemJson>, m: ItemJson, post: seq<ItemJson>)
    requires forall k :: 0 <= k < |pre| ==> pre[k].ItemObject? && !IsTarget(pre[k])
    requires IsTarget(m)
    ensures ItemsScan(pre + [m] + post) == ItemVerdict(m.price)
  {
    if pre != [] {
      assert (pre + [m] + post)[1..] == pre[1..] + [m] + post;
      OnlyFirstMatchExamined(pre[1..], m, post);
    }
  }

  /**
   * The outer loop returns the verdict of the first category that did not end Unpriced, or
   * Unpriced when every category did: a later category can supply the price only when
   * every earlier one had no item named Target or one whose price had no digit.
   */
  lemma {:induction false} CategoriesScanIsFirstVerdict(cs: seq<CategoryEntry>, c: nat)
    requires c <= |cs|
    requires forall k :: 0 <= k < c ==> CategoryScan(cs[k].items).Unpriced?
    ensures c < |cs| && !CategoryScan(cs[c].items).Unpriced? ==> CategoriesScan(cs) == CategoryScan(cs[c].items)
    ensures c == |cs| ==> CategoriesScan(cs) == Unpriced
  {
    if c > 0 {
      CategoriesScanIsFirstVerdict(cs[1..], c - 1);
    } else if cs != [] {
    }
  }

  /** A numeric price comes from the first category that supplies one, and from no other. */
  lemma PricedComesFromFirstPricedCategory(cs: seq<CategoryEntry>, v: real)
    ensures CategoriesScan(cs) == Priced(v) <==>
      exists c :: 0 <= c < |cs| && CategoryScan(cs[c].items) == Priced(v) &&
        forall k :: 0 <= k < c ==> CategoryScan(cs[k].items).Unpriced?
  {
    var c := FirstDecided(cs, 0);
    CategoriesScanIsFirstVerdict(cs, c);
    if CategoriesScan(cs) != Priced(v) {
      forall c' | 0 <= c' < |cs| && CategoryScan(cs[c'].items) == Priced(v)
        ensures exists k :: 0 <= k < c' && !CategoryScan(cs[k].items).Unpriced?
      {
        assert c <= c';
        assert c != c';
      }
    }
  }

  /** The index of the first category whose verdict is not Unpriced, or |cs| when there is none. */
  function FirstDecided(cs: seq<CategoryEntry>, from: nat): (c: nat)
    requires from <= |cs|
    requires forall k :: 0 <= k < from ==> CategoryScan(cs[k].items).Unpriced?
    ensures from <= c <= |cs|
    ensures forall k :: 0 <= k < c ==> CategoryScan(cs[k].items).Unpriced?
    ensures c < |cs| ==> !CategoryScan(cs[c].items).Unpriced?
    decreases |cs| - from
  {
    if from == |cs| || !CategoryScan(cs[from].items).Unpriced? then from
    else FirstDecided(cs, from + 1)
  }

  /** Two categories that both list the item with different prices: the first in document order wins. */
  lemma FirstCategoryWins()
    ensures MenuPrice(MenuObject(Some(CategoryMap([
      CategoryEntry("Boxes", ItemSeq([ItemObject(Some(Target), Some(PriceText("$5.00")))])),
      CategoryEntry("Deals", ItemSeq([ItemObject(Some(Target), Some(PriceText("$7.00")))]))])))) == Priced(5.0)
  {
    ExtractDollarFive("$5.00");
  }

  /** A priceless match ends its category's scan: a later duplicate in the same category is ignored... */
  lemma LaterItemInSameCategoryIgnored()
    ensures MenuPrice(MenuObject(Some(CategoryMap([
      CategoryEntry("Boxes", ItemSeq([
        ItemObject(Some(Target), Some(PriceText("Market Price"))),
        ItemObject(Some(Target), Some(PriceText("5")))]))])))) == Unpriced
  {
    var items := [ItemObject(Some(Target), Some(PriceText("Market Price"))), ItemObject(Some(Target), Some(PriceText("5")))];
    var cs := [CategoryEntry("Boxes", ItemSeq(items))];
    ExtractNoDigit("Market Price");
    assert ItemsScan(items) == Unpriced;
    assert cs[1..] == [];
    assert CategoriesScan(cs) == Unpriced;
  }

  /** ...but a later category is still searched. */
  lemma LaterCategoryStillSearched()
    ensures MenuPrice(MenuObject(Some(CategoryMap([
      CategoryEntry("Boxes", ItemSeq([ItemObject(Some(Target), Some(PriceText("Market Price")))])),
      CategoryEntry("Deals", ItemSeq([ItemObject(Some(Target), Some(PriceText("5")))]))])))) == Priced(5.0)
  {
    var first := [ItemObject(Some(Target), Some(PriceText("Market Price")))];
    var second := [ItemObject(Some(Target), Some(PriceText("5")))];
    var cs := [CategoryEntry("Boxes", ItemSeq(first)), CategoryEntry("Deals", ItemSeq(second))];
    ExtractNoDigit("Market Price");
    ExtractPlainFive("5");
    assert ItemsScan(first) == Unpriced;
    assert ItemsScan(second) == Priced(5.0);
    assert cs[1..][1..] == [];
    assert CategoriesScan(cs[1..]) == Priced(5.0);
  }
}
