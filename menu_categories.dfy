/**
 * `parse_categories` of the menu scraper: the product categories of a store's menu page,
 * each turned into a record with a display name, a store-specific link and a description.
 *
 * Finding the `__NEXT_DATA__` script and decoding its JSON are not modelled; the page is
 * given as their outcome. The decoded document is described only as far as the lookups
 * `data.get('props', {}).get('pageProps', {}).get('productCategories', [])` and the loop over
 * the categories reach into it.
 */
module MenuCategories {
  import opened Wrappers

  const SiteRoot: string := "https://www.tacobell.com"
  const StoreQuery: string := "?store="

  /** One element of `productCategories`; `labelText` is the value under its `label` key. */
  datatype Category =
    | CategoryObject(labelText: Option<string>, slug: Option<string>, subtitle: Option<string>)
      /** Not a JSON object: it has no `get`, so reading its label raises. */
    | CategoryOther

  /** The value found under `productCategories`, by what iterating over it does. */
  datatype CategoriesValue =
    | CategoryList(items: seq<Category>)
      /** A JSON object or string: iterating gives its keys or characters, which are strings without `get`. */
    | KeysOrChars(count: nat)
      /** A number, a boolean or null: not iterable. */
    | Scalar

  datatype PageProps = PagePropsObject(productCategories: Option<CategoriesValue>) | PagePropsOther
  datatype Props = PropsObject(pageProps: Option<PageProps>) | PropsOther
  datatype NextData = DataObject(props: Option<Props>) | DataOther

  /** What locating and decoding the page's `__NEXT_DATA__` script gave. */
  datatype Page = NoNextData | BadJson | Decoded(data: NextData)

  datatype CategoryRecord = CategoryRecord(name: string, url: string, description: string)

  /**
   * The chained lookups: a missing key gives the default (`{}`, then `[]`), a value that is
   * not an object where `get` is called raises (None).
   */
  function ProductCategories(data: NextData): (r: Option<CategoriesValue>)
    ensures r.None? <==>
      data.DataOther? || (data.props.Some? && (data.props.value.PropsOther? ||
        (data.props.value.pageProps.Some? && data.props.value.pageProps.value.PagePropsOther?)))
    ensures r.Some? && data.props.Some? && data.props.value.pageProps.Some?
              && data.props.value.pageProps.value.productCategories.Some?
            ==> r.value == data.props.value.pageProps.value.productCategories.value
    ensures data == DataObject(None) || data == DataObject(Some(PropsObject(None)))
            || data == DataObject(Some(PropsObject(Some(PagePropsObject(None)))))
            ==> r == Some(CategoryList([]))
  {
    match data
    case DataOther => None
    case DataObject(props) =>
      match props.GetOr(PropsObject(None))
      case PropsOther => None
      case PropsObject(pageProps) =>
        match pageProps.GetOr(PagePropsObject(None))
        case PagePropsOther => None
        case PagePropsObject(cats) => Some(cats.GetOr(CategoryList([])))
  }

  /**
   * The link for a category: the site root, the slug and the store parameter when the slug
   * is present and non-empty; otherwise the empty string.
   */
  function CategoryUrl(slug: Option<string>, storeId: string): (u: string)
    ensures u == [] <==> slug.None? || slug.value == []
    ensures u != [] ==> u == SiteRoot + slug.value + StoreQuery + storeId
  {
    var s := slug.GetOr("");
    if s != [] then SiteRoot + s + StoreQuery + storeId else ""
  }

  /** The slug read back out of a non-empty category link. */
  function SlugOf(u: string, storeId: string): string
    requires |SiteRoot| + |StoreQuery| + |storeId| <= |u|
  {
    u[|SiteRoot|..|u| - |StoreQuery| - |storeId|]
  }

  /** A non-empty link determines its slug: the link is built without losing anything. */
  lemma SlugRoundTrip(slug: string, storeId: string)
    requires slug != []
    ensures var u := CategoryUrl(Some(slug), storeId);
            |SiteRoot| + |StoreQuery| + |storeId| <= |u| && SlugOf(u, storeId) == slug
  {
    var u := CategoryUrl(Some(slug), storeId);
    assert u == SiteRoot + slug + (StoreQuery + storeId);
    assert u[|SiteRoot|..|SiteRoot| + |slug|] == slug;
  }

  /** Different slugs give different links for the same store. */
  lemma UrlsDistinguishSlugs(a: string, b: string, storeId: string)
    requires a != [] && b != [] && a != b
    ensures CategoryUrl(Some(a), storeId) != CategoryUrl(Some(b), storeId)
  {
    SlugRoundTrip(a, storeId);
    SlugRoundTrip(b, storeId);
  }

  /** The record for one category: its label or 'Unknown', its link, its subtitle or ''. */
  function RecordFor(c: Category, storeId: string): (r: CategoryRecord)
    requires c.CategoryObject?
    ensures r.name == (if c.labelText.Some? then c.labelText.value else "Unknown")
    ensures r.description == (if c.subtitle.Some? then c.subtitle.value else "")
    ensures r.url == CategoryUrl(c.slug, storeId)
  {
    CategoryRecord(c.labelText.GetOr("Unknown"), CategoryUrl(c.slug, storeId), c.subtitle.GetOr(""))
  }

  predicate AllObjects(items: seq<Category>) {
    forall i :: 0 <= i < |items| ==> items[i].CategoryObject?
  }

  /** The records of a list of categories: one per category, in the same order. */
  function Records(items: seq<Category>, storeId: string): (r: seq<CategoryRecord>)
    requires AllObjects(items)
    ensures |r| == |items|
  {
    if items == [] then []
    else
      var init := items[..|items| - 1];
      assert forall i :: 0 <= i < |init| ==> init[i] == items[i];
      Records(init, storeId) + [RecordFor(items[|items| - 1], storeId)]
  }

  lemma RecordsStep(items: seq<Category>, i: nat, storeId: string)
    requires i < |items| && AllObjects(items[..i]) && items[i].CategoryObject?
    ensures AllObjects(items[..i + 1])
    ensures Records(items[..i + 1], storeId) == Records(items[..i], storeId) + [RecordFor(items[i], storeId)]
  {
    assert items[..i + 1][..i] == items[..i];
  }

  /** Each record is the record of the category at the same position. */
  lemma {:induction false} RecordsAt(items: seq<Category>, storeId: string, j: nat)
    requires AllObjects(items) && j < |items|
    ensures Records(items, storeId)[j] == RecordFor(items[j], storeId)
    decreases |items|
  {
    var init := items[..|items| - 1];
    assert forall i :: 0 <= i < |init| ==> init[i] == items[i];
    if j < |init| {
      RecordsAt(init, storeId, j);
    }
  }

  /**
   * What `parse_categories` returns: None when the script is missing, the JSON does not
   * decode, a lookup or the iteration raises, or a category is not an object; otherwise the
   * records of the categories.
   */
  function CategoriesOf(page: Page, storeId: string): (r: Option<seq<CategoryRecord>>)
    ensures r.Some? ==> page.Decoded? && ProductCategories(page.data).Some?
  {
    match page
    case NoNextData => None
    case BadJson => None
    case Decoded(data) =>
      match ProductCategories(data)
      case None => None
      case Some(CategoryList(items)) => if AllObjects(items) then Some(Records(items, storeId)) else None
      case Some(KeysOrChars(n)) => if n == 0 then Some([]) else None
      case Some(Scalar) => None
  }

  /** `parse_categories(html_content, store_id)` from the point where the page has been decoded. */
  method ParseCategories(page: Page, storeId: string) returns (r: Option<seq<CategoryRecord>>)
    ensures r == CategoriesOf(page, storeId)
  {
    if !page.Decoded? {
      return None;
    }
    var productCategories := ProductCategories(page.data);
    if productCategories.None? {
      return None;
    }
    match productCategories.value
    case Scalar =>
      return None;
    case KeysOrChars(n) =>
      return if n == 0 then Some([]) else None;
    case CategoryList(items) =>
      var categories: seq<CategoryRecord> := [];
      for i := 0 to |items|
        invariant AllObjects(items[..i])
        invariant categories == Records(items[..i], storeId)
      {
        var category := items[i];
        if category.CategoryOther? {
          return None;
        }
        var name := category.labelText.GetOr("Unknown");
        var slug := category.slug.GetOr("");
        var subtitle := category.subtitle.GetOr("");
        var url: string;
        if slug != [] {
          url := SiteRoot + slug + StoreQuery + storeId;
        } else {
          url := "";
        }
        assert CategoryRecord(name, url, subtitle) == RecordFor(category, storeId);
        RecordsStep(items, i, storeId);
        categories := categories + [CategoryRecord(name, url, subtitle)];
      }
      assert items[..|items|] == items;
      return Some(categories);
  }

  /** A category list on a decoded page gives one record per category, in order, or fails as a whole. */
  lemma OneRecordPerCategory(page: Page, storeId: string, items: seq<Category>)
    requires page.Decoded? && ProductCategories(page.data) == Some(CategoryList(items))
    ensures CategoriesOf(page, storeId).Some? <==> AllObjects(items)
    ensures CategoriesOf(page, storeId).Some? ==>
      |CategoriesOf(page, storeId).value| == |items| &&
      forall j :: 0 <= j < |items| ==> CategoriesOf(page, storeId).value[j] == RecordFor(items[j], storeId)
  {
    if AllObjects(items) {
      forall j | 0 <= j < |items|
        ensures Records(items, storeId)[j] == RecordFor(items[j], storeId)
      {
        RecordsAt(items, storeId, j);
      }
    }
  }

  /** An example: a labelled category with a slug, and one with neither label, slug nor subtitle. */
  lemma TwoCategoriesExample(storeId: string, items: seq<Category>)
    requires storeId == "031440"
    requires items == [CategoryObject(Some("Tacos"), Some("/food/tacos"), Some("Crunchy")),
                       CategoryObject(None, None, None)]
    ensures CategoriesOf(Decoded(DataObject(Some(PropsObject(Some(PagePropsObject(Some(CategoryList(items)))))))), storeId)
      == Some([CategoryRecord("Tacos", "https://www.tacobell.com/food/tacos?store=031440", "Crunchy"),
               CategoryRecord("Unknown", "", "")])
  {
    assert AllObjects(items);
    var r := Records(items, storeId);
    RecordsAt(items, storeId, 0);
    RecordsAt(items, storeId, 1);
    TacosUrl(storeId);
    assert r[0] == CategoryRecord("Tacos", "https://www.tacobell.com/food/tacos?store=031440", "Crunchy");
    assert r[1] == CategoryRecord("Unknown", "", "");
    assert r == [r[0], r[1]];
  }

  lemma TacosUrl(storeId: string)
    requires storeId == "031440"
    ensures CategoryUrl(Some("/food/tacos"), storeId) == "https://www.tacobell.com/food/tacos?store=031440"
  {
    var a := SiteRoot + "/food/tacos";
    assert a == "https://www.tacobell.com/food/tacos";
    var b := StoreQuery + storeId;
    assert b == "?store=031440";
    assert SiteRoot + "/food/tacos" + StoreQuery + storeId == a + b;
  }
}
