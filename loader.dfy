/**
 * `CSVParser.loadLocations`: the store locations listed in the locations CSV. The text is
 * trimmed and split into lines; the first line is the header; every later line with at least
 * four fields whose fourth field (the map URL) yields coordinates becomes one record.
 */
module Loader {
  import opened Wrappers
  import opened Text
  import opened CsvLine
  import opened Coordinates

  datatype StoreLocation = StoreLocation(
    storeId: string, location: string, page: string, mapUrl: string, lat: real, lng: real)

  /** The lines after the header. */
  function DataLines(csvText: string): seq<string> {
    Split(Trim(csvText), '\n')[1..]
  }

  /**
   * The record a line's fields yield: none when there are fewer than four or when the map URL,
   * the fourth, has no coordinates; fields after the fourth are ignored.
   */
  function RecordFrom(fields: seq<string>): (r: Option<StoreLocation>)
    ensures r.Some? <==> |fields| >= 4 && ExtractCoordinates(fields[3]).Some?
    ensures r.Some? ==>
      && r.value.storeId == fields[0] && r.value.location == fields[1]
      && r.value.page == fields[2] && r.value.mapUrl == fields[3]
      && ExtractCoordinates(r.value.mapUrl) == Some((r.value.lat, r.value.lng))
  {
    if |fields| < 4 then None
    else
      match ExtractCoordinates(fields[3])
      case None => None
      case Some((lat, lng)) => Some(StoreLocation(fields[0], fields[1], fields[2], fields[3], lat, lng))
  }

  /** The record one data line yields, split by the corrected field splitter. */
  function RecordOf(line: string): (r: Option<StoreLocation>)
    ensures r.Some? <==> |ParseCsvLineFixed(line)| >= 4 && ExtractCoordinates(ParseCsvLineFixed(line)[3]).Some?
    ensures r.Some? ==> ExtractCoordinates(r.value.mapUrl) == Some((r.value.lat, r.value.lng))
  {
    RecordFrom(ParseCsvLineFixed(line))
  }

  /** The record one data line yields, split by `parseCSVLine` as written. */
  function RecordOfAsWritten(line: string): (r: Option<StoreLocation>)
    ensures r.Some? <==> |ParseCsvLine(line)| >= 4 && ExtractCoordinates(ParseCsvLine(line)[3]).Some?
    ensures r.Some? ==> ExtractCoordinates(r.value.mapUrl) == Some((r.value.lat, r.value.lng))
  {
    RecordFrom(ParseCsvLine(line))
  }

  /** Unless a line starts with a comma, the record is the same with either splitter. */
  lemma AsWrittenRecordAgrees(line: string)
    requires line == [] || line[0] != ','
    ensures RecordOfAsWritten(line) == RecordOf(line)
  {
    AsWrittenAgreesWithoutLeadingComma(line);
  }

  /**
   * Where the splitters differ: a line with an empty first field, an unquoted second field and
   * exactly four fields whose map URL has coordinates is a record here, but as written it
   * splits into three fields and is dropped.
   */
  lemma LeadingCommaLineDroppedAsWritten(line: string)
    requires |line| >= 2 && line[0] == ',' && line[1] != '"'
    requires |ParseCsvLineFixed(line)| == 4 && ExtractCoordinates(ParseCsvLineFixed(line)[3]).Some?
    ensures RecordOf(line).Some? && RecordOf(line).value.storeId == ""
    ensures RecordOfAsWritten(line).None?
  {
    LeadingEmptyFieldDropsSecond(line);
    LeadingCommaMatches(line);
    assert line[..0] == [];
  }

  /** The records of `lines`, in line order. */
  function LocationsFrom(lines: seq<string>): (r: seq<StoreLocation>)
    ensures |r| <= |lines|
  {
    if lines == [] then []
    else
      var last := lines[|lines| - 1];
      LocationsFrom(lines[..|lines| - 1]) + (if RecordOf(last).Some? then [RecordOf(last).value] else [])
  }

  /**
   * `loadLocations`. The fetched text is a parameter: None stands for a fetch or read that
   * failed, which the loader reports and answers with no locations.
   */
  method LoadLocations(response: Option<string>) returns (locations: seq<StoreLocation>)
    ensures response.None? ==> locations == []
    ensures response.Some? ==> locations == LocationsFrom(DataLines(response.value))
  {
    if response.None? {
      return [];
    }
    var lines := Split(Trim(response.value), '\n');
    locations := [];
    for i := 1 to |lines|
      invariant locations == LocationsFrom(lines[1..i])
    {
      LocationsFromStep(lines, i);
      var fields := ParseCsvLineFixed(lines[i]);
      RecordOfFields(lines[i], fields);
      if |fields| >= 4 {
        var coords := ExtractCoordinates(fields[3]);
        if coords.Some? {
          locations := locations + [StoreLocation(fields[0], fields[1], fields[2], fields[3], coords.value.0, coords.value.1)];
        }
      }
    }
    LinesAfterHeader(lines);
  }

  lemma LocationsFromStep(lines: seq<string>, i: nat)
    requires 1 <= i < |lines|
    ensures LocationsFrom(lines[1..i + 1]) ==
      LocationsFrom(lines[1..i]) + (if RecordOf(lines[i]).Some? then [RecordOf(lines[i]).value] else [])
  {
    assert lines[1..i + 1][..i - 1] == lines[1..i];
  }

  /** The record of a line, told from its fields: none below four fields, else the coordinates of the fourth decide. */
  lemma RecordOfFields(line: string, fields: seq<string>)
    requires fields == ParseCsvLineFixed(line)
    ensures |fields| < 4 ==> RecordOf(line).None?
    ensures |fields| >= 4 && ExtractCoordinates(fields[3]).None? ==> RecordOf(line).None?
    ensures |fields| >= 4 && ExtractCoordinates(fields[3]).Some? ==>
      var c := ExtractCoordinates(fields[3]).value;
      RecordOf(line) == Some(StoreLocation(fields[0], fields[1], fields[2], fields[3], c.0, c.1))
  {
  }

  lemma LinesAfterHeader(lines: seq<string>)
    requires |lines| >= 1
    ensures lines[1..|lines|] == lines[1..]
  {
  }

  /** Loading two blocks of lines one after the other gives the records of each, in order. */
  lemma {:induction false} LocationsFromConcat(a: seq<string>, b: seq<string>)
    ensures LocationsFrom(a + b) == LocationsFrom(a) + LocationsFrom(b)
    decreases |b|
  {
    if b == [] {
      assert a + b == a;
    } else {
      var b' := b[..|b| - 1];
      assert (a + b)[..|a + b| - 1] == a + b';
      assert (a + b)[|a + b| - 1] == b[|b| - 1];
      LocationsFromConcat(a, b');
    }
  }

  /** Every record was read from one of the lines, and its coordinates come from its map URL. */
  lemma {:induction false} RecordsComeFromLines(lines: seq<string>, j: nat)
    requires j < |LocationsFrom(lines)|
    ensures exists i :: 0 <= i < |lines| && RecordOf(lines[i]) == Some(LocationsFrom(lines)[j])
    decreases |lines|
  {
    var init := lines[..|lines| - 1];
    if j < |LocationsFrom(init)| {
      RecordsComeFromLines(init, j);
      var i :| 0 <= i < |init| && RecordOf(init[i]) == Some(LocationsFrom(init)[j]);
      assert lines[i] == init[i];
    } else {
      assert RecordOf(lines[|lines| - 1]) == Some(LocationsFrom(lines)[j]);
    }
  }

  /** Every loaded record carries the coordinates its own map URL yields. */
  lemma RecordsMatchTheirUrls(lines: seq<string>)
    ensures forall j :: 0 <= j < |LocationsFrom(lines)| ==>
      ExtractCoordinates(LocationsFrom(lines)[j].mapUrl) == Some((LocationsFrom(lines)[j].lat, LocationsFrom(lines)[j].lng))
  {
    forall j | 0 <= j < |LocationsFrom(lines)|
      ensures ExtractCoordinates(LocationsFrom(lines)[j].mapUrl) == Some((LocationsFrom(lines)[j].lat, LocationsFrom(lines)[j].lng))
    {
      RecordsComeFromLines(lines, j);
    }
  }

  /** A file whose trimmed text is a single line holds only the header and yields no records. */
  lemma HeaderOnly(csvText: string)
    requires '\n' !in Trim(csvText)
    ensures LocationsFrom(DataLines(csvText)) == []
  {
    CountAbsent(Trim(csvText), '\n');
  }

  /**
   * A data line written as well-formed CSV fields yields the record made of its first four
   * fields exactly when the fourth, the map URL, carries coordinates.
   */
  lemma RecordOfWrittenLine(fs: seq<Field>)
    requires |fs| >= 4
    requires forall i :: 0 <= i < |fs| ==> WellFormed(fs[i])
    ensures RecordOf(Join(EncodeAll(fs), ',')) ==
      match ExtractCoordinates(fs[3].text)
      case None => None
      case Some((lat, lng)) => Some(StoreLocation(fs[0].text, fs[1].text, fs[2].text, fs[3].text, lat, lng))
  {
    RoundTrip(fs);
    TextsAt(fs);
  }

  lemma {:induction false} TextsAt(fs: seq<Field>)
    ensures forall i :: 0 <= i < |fs| ==> Texts(fs)[i] == fs[i].text
  {
    if fs != [] {
      TextsAt(fs[1..]);
      assert forall i :: 1 <= i < |fs| ==> Texts(fs)[i] == Texts(fs[1..])[i - 1];
    }
  }

  /** A store line whose map URL is quoted, because it holds a comma, is loaded with its coordinates. */
  lemma TampaStoreLine(fs: seq<Field>)
    requires fs == [Plain("42"), Plain("Tampa"), Plain("p"), Quoted("maps?destination=27.9506,-82.4572")]
    ensures RecordOf(Join(EncodeAll(fs), ',')) ==
      Some(StoreLocation("42", "Tampa", "p", "maps?destination=27.9506,-82.4572", 27.9506, -82.4572))
  {
    assert WellFormed(fs[0]) && WellFormed(fs[1]) && WellFormed(fs[2]) && WellFormed(fs[3]);
    RecordOfWrittenLine(fs);
    TampaExample(fs[3].text);
  }
}
