/**
 * Validation and transformation of the analysis service's answer
 * (`src/utils/analysis`): the three-way check of a decoded record against the
 * table of known highlight keys, the conversion of a record into display
 * entries, the decode-parse-validate pipeline, and the `.csv` file-name check.
 */
module Analysis {
  import opened Outcomes
  import Decimal

  /** Label given to a key the title table does not know. */
  const UnknownLabel: string := "Неизвестный параметр"

  /** Message of the error thrown when a known key holds null. */
  const NullValueMessage: string := "Known highlight key holds null"

  /** Message of the error thrown when no known key is present. */
  const NoKnownKeysMessage: string := "No known highlight keys in server response"

  /** Message of the error thrown when the payload is not a JSON object. */
  const MalformedMessage: string := "Server response is not a JSON object"

  type Bytes = seq<bv8>

  /** A scalar JSON value as it appears at the top level of the answer. */
  datatype Value = Num(n: real) | Str(s: string) | Bool(b: bool) | Null

  /** A decoded JSON object: its entries in insertion order. */
  type Record = seq<(string, Value)>

  /** `HIGHLIGHT_TITLES`: known key to human-readable label. */
  type Titles = map<string, string>

  /** One display entry, `{title, description}`. */
  datatype Highlight = Highlight(title: string, description: string)

  /** What `transformAnalysisData` returns: the record and its display list. */
  datatype Analysis = Analysis(highlights: Record, highlightsToStore: seq<Highlight>)

  /** A browser `File`, reduced to what the core looks at. */
  datatype File = File(name: string, content: Bytes)

  // ---------------------------------------------------------------------
  // validateServerResponse

  predicate KnownKey(titles: Titles, entry: (string, Value))
  {
    entry.0 in titles
  }

  predicate KnownNull(titles: Titles, entry: (string, Value))
  {
    entry.0 in titles && entry.1 == Null
  }

  /** Some known key is present in the record. */
  predicate HasKnownKey(titles: Titles, data: Record)
  {
    exists i :: 0 <= i < |data| && KnownKey(titles, data[i])
  }

  /** Some known key is present and holds null. */
  predicate HasKnownNull(titles: Titles, data: Record)
  {
    exists i :: 0 <= i < |data| && KnownNull(titles, data[i])
  }

  /**
   * `validateServerResponse`: throws `InvalidServerResponseError` when a known
   * key holds null, otherwise tells whether at least one known key is present.
   */
  function ValidateServerResponse(titles: Titles, data: Record): (r: Result<bool, Error>)
    ensures r.Failure? <==> HasKnownNull(titles, data)
    ensures r.Failure? ==> r.error == InvalidServerResponseError(NullValueMessage)
    ensures r == Success(true) <==> !HasKnownNull(titles, data) && HasKnownKey(titles, data)
    ensures r == Success(false) <==> !HasKnownNull(titles, data) && !HasKnownKey(titles, data)
  {
    if data == [] then
      Success(false)
    else if KnownNull(titles, data[0]) then
      Failure(InvalidServerResponseError(NullValueMessage))
    else
      match ValidateServerResponse(titles, data[1..])
      case Failure(e) =>
        assert KnownNull(titles, data[1..][0]) || HasKnownNull(titles, data[1..]);
        Failure(e)
      case Success(found) =>
        assert forall i :: 1 <= i < |data| ==> data[i] == data[1..][i - 1];
        Success(found || KnownKey(titles, data[0]))
  }

  // ---------------------------------------------------------------------
  // convertHighlightsToArray

  /** `Math.round`: the nearest integer, a tie going toward positive infinity. */
  function Round(x: real): (r: int)
    ensures r as real - 0.5 <= x < r as real + 0.5
  {
    (x + 0.5).Floor
  }

  /** `String(value)` for a scalar, numbers rounded first. */
  function TitleOf(v: Value): (r: string)
    ensures v.Num? ==> r == Decimal.IntToString(Round(v.n)) && Decimal.ParseInt(r) == Some(Round(v.n))
    ensures v.Str? ==> r == v.s
  {
    match v
    case Num(n) => Decimal.IntRoundTrip(Round(n)); Decimal.IntToString(Round(n))
    case Str(s) => s
    case Bool(b) => if b then "true" else "false"
    case Null => "null"
  }

  /** `HIGHLIGHT_TITLES[key] || 'Неизвестный параметр'`. */
  function Label(titles: Titles, key: string): (r: string)
    ensures r != ""
    ensures key in titles && titles[key] != "" ==> r == titles[key]
    ensures key !in titles || titles[key] == "" ==> r == UnknownLabel
  {
    if key in titles && titles[key] != "" then titles[key] else UnknownLabel
  }

  function ToHighlight(titles: Titles, entry: (string, Value)): Highlight
  {
    Highlight(TitleOf(entry.1), Label(titles, entry.0))
  }

  /** `convertHighlightsToArray`: one display entry per record entry, in order. */
  function ConvertHighlightsToArray(titles: Titles, data: Record): (r: seq<Highlight>)
    ensures |r| == |data|
    ensures forall i :: 0 <= i < |data| ==> r[i] == ToHighlight(titles, data[i])
  {
    if data == [] then [] else [ToHighlight(titles, data[0])] + ConvertHighlightsToArray(titles, data[1..])
  }

  // ---------------------------------------------------------------------
  // transformAnalysisData

  /** Drops one trailing line feed, if there is one. */
  function StripTrailingNewline(s: string): (r: string)
    ensures s == r || s == r + "\n"
    ensures |s| > 0 && s[|s| - 1] == '\n' ==> s == r + "\n"
    ensures (|s| == 0 || s[|s| - 1] != '\n') ==> r == s
  {
    if |s| > 0 && s[|s| - 1] == '\n' then s[..|s| - 1] else s
  }

  /**
   * `transformAnalysisData`: decodes the payload (`decode` stands for the
   * UTF-8 `TextDecoder`), strips the trailing newline, parses it (`parse`
   * stands for `JSON.parse` of an object; `None` is a syntax error) and
   * validates it. Every failure is an `InvalidServerResponseError`.
   */
  function TransformAnalysisData(titles: Titles, decode: Bytes -> string, parse: string -> Option<Record>, payload: Bytes): (r: Result<Analysis, Error>)
    ensures r.Failure? ==> r.error.InvalidServerResponseError?
    ensures r.Success? ==> ValidateServerResponse(titles, r.value.highlights) == Success(true)
                           && r.value.highlightsToStore == ConvertHighlightsToArray(titles, r.value.highlights)
  {
    match parse(StripTrailingNewline(decode(payload)))
    case None => Failure(InvalidServerResponseError(MalformedMessage))
    case Some(data) =>
      match ValidateServerResponse(titles, data)
      case Failure(e) => Failure(e)
      case Success(false) => Failure(InvalidServerResponseError(NoKnownKeysMessage))
      case Success(true) => Success(Analysis(data, ConvertHighlightsToArray(titles, data)))
  }

  // ---------------------------------------------------------------------
  // isCsvFile

  function ToLowerAscii(c: char): char
  {
    if 'A' <= c <= 'Z' then (c as int + 32) as char else c
  }

  function ToLower(s: string): (r: string)
    ensures |r| == |s|
    ensures forall i :: 0 <= i < |s| ==> r[i] == ToLowerAscii(s[i])
  {
    if s == [] then [] else [ToLowerAscii(s[0])] + ToLower(s[1..])
  }

  predicate EndsWith(s: string, suffix: string)
  {
    |suffix| <= |s| && s[|s| - |suffix|..] == suffix
  }

  /** `isCsvFile`: the name, lower-cased, ends in `.csv`. */
  predicate IsCsvFile(file: File)
    ensures IsCsvFile(file) ==> |file.name| >= 4 && file.name[|file.name| - 4] == '.'
  {
    EndsWith(ToLower(file.name), ".csv")
  }

  // ---------------------------------------------------------------------
  // Properties

  /** A record holding every known key, none of them null, is valid. */
  lemma ValidateAllKnownKeys(titles: Titles, data: Record)
    requires |titles| > 0
    requires forall k :: k in titles ==> exists i :: 0 <= i < |data| && data[i].0 == k
    requires forall i :: 0 <= i < |data| ==> data[i].1 != Null
    ensures ValidateServerResponse(titles, data) == Success(true)
  {
    var k :| k in titles;
    var i :| 0 <= i < |data| && data[i].0 == k;
    assert KnownKey(titles, data[i]);
  }

  /** A record with only unknown keys is rejected by returning false, not by throwing. */
  lemma ValidateOnlyUnknownKeys(titles: Titles, data: Record)
    requires forall i :: 0 <= i < |data| ==> data[i].0 !in titles
    ensures ValidateServerResponse(titles, data) == Success(false)
  {
  }

  /** A known key holding null makes validation throw, whatever the other entries hold. */
  lemma ValidateKnownNullThrows(titles: Titles, data: Record, i: nat)
    requires i < |data| && data[i].0 in titles && data[i].1 == Null
    ensures ValidateServerResponse(titles, data) == Failure(InvalidServerResponseError(NullValueMessage))
  {
    assert KnownNull(titles, data[i]);
  }

  /** One non-null known key among unknown ones is enough. */
  lemma ValidateOneKnownKey(titles: Titles, data: Record, i: nat)
    requires i < |data| && data[i].0 in titles && data[i].1 != Null
    requires forall j :: 0 <= j < |data| && j != i ==> data[j].0 !in titles
    ensures ValidateServerResponse(titles, data) == Success(true)
  {
    assert KnownKey(titles, data[i]);
  }

  function Distance(x: real, y: real): real
  {
    if x >= y then x - y else y - x
  }

  /** The rounding is to the nearest integer: no integer is closer to `x`. */
  lemma RoundIsNearest(x: real, k: int)
    ensures Distance(x, Round(x) as real) <= 0.5
    ensures Distance(x, k as real) >= Distance(x, Round(x) as real)
  {
    var r := Round(x);
    if k < r {
      assert k as real <= r as real - 1.0;
    } else if k > r {
      assert k as real >= r as real + 1.0;
    }
  }

  /** A numeric title reads back as the rounded number. */
  lemma NumericTitleReadsBack(titles: Titles, data: Record, i: nat)
    requires i < |data| && data[i].1.Num?
    ensures Decimal.ParseInt(ConvertHighlightsToArray(titles, data)[i].title) == Some(Round(data[i].1.n))
  {
    Decimal.IntRoundTrip(Round(data[i].1.n));
  }

  /** Every description is the key's label or, for an unknown key, the fallback; never blank. */
  lemma DescriptionsNeverBlank(titles: Titles, data: Record, i: nat)
    requires i < |data|
    ensures ConvertHighlightsToArray(titles, data)[i].description != ""
    ensures data[i].0 !in titles || titles[data[i].0] == "" ==> ConvertHighlightsToArray(titles, data)[i].description == UnknownLabel
  {
  }

  lemma ConvertEmpty(titles: Titles)
    ensures ConvertHighlightsToArray(titles, []) == []
  {
  }

  /** The mixed record of the conversion test. */
  lemma ConvertMixedExample(titles: Titles)
    requires "unknown_key" !in titles
    ensures ConvertHighlightsToArray(titles, [("revenue", Num(1000.0)), ("profit", Num(500.0)), ("unknown_key", Str("value"))])
         == [Highlight("1000", Label(titles, "revenue")), Highlight("500", Label(titles, "profit")), Highlight("value", UnknownLabel)]
  {
    assert Round(1000.0) == 1000 && Round(500.0) == 500;
    assert Decimal.IntToString(1000) == "1000";
    assert Decimal.IntToString(500) == "500";
  }

  /** The rounding test: 1000.456 becomes "1000" and 500.789 becomes "501". */
  lemma ConvertRoundsExample(titles: Titles)
    ensures ConvertHighlightsToArray(titles, [("revenue", Num(1000.456)), ("profit", Num(500.789))])
         == [Highlight("1000", Label(titles, "revenue")), Highlight("501", Label(titles, "profit"))]
  {
    assert Round(1000.456) == 1000 && Round(500.789) == 501;
    assert Decimal.IntToString(1000) == "1000";
    assert Decimal.IntToString(501) == "501";
  }

  lemma StripRestoresLine(s: string)
    ensures StripTrailingNewline(s + "\n") == s
  {
  }

  /** Every failure of the pipeline is an `InvalidServerResponseError`; success is exactly a valid record. */
  lemma TransformOutcome(titles: Titles, decode: Bytes -> string, parse: string -> Option<Record>, payload: Bytes)
    ensures var r := TransformAnalysisData(titles, decode, parse, payload);
      && (r.Failure? ==> r.error.InvalidServerResponseError?)
      && (r.Success? <==> var p := parse(StripTrailingNewline(decode(payload)));
                          p.Some? && !HasKnownNull(titles, p.value) && HasKnownKey(titles, p.value))
      && (r.Success? ==> Some(r.value.highlights) == parse(StripTrailingNewline(decode(payload)))
                         && r.value.highlightsToStore == ConvertHighlightsToArray(titles, r.value.highlights))
  {
  }

  /** A newline-terminated object with no usable known key is rejected (the `{some_key: null}` and `{invalid_key: 'value'}` tests). */
  lemma TransformRejectsNoUsableKey(titles: Titles, decode: Bytes -> string, parse: string -> Option<Record>, payload: Bytes, data: Record)
    requires parse(StripTrailingNewline(decode(payload))) == Some(data)
    requires forall i :: 0 <= i < |data| ==> data[i].0 !in titles || data[i].1 == Null
    ensures TransformAnalysisData(titles, decode, parse, payload).Failure?
    ensures TransformAnalysisData(titles, decode, parse, payload).error.InvalidServerResponseError?
  {
    if HasKnownNull(titles, data) {
    } else {
      assert !HasKnownKey(titles, data);
    }
  }

  lemma LowerAsciiIs(c: char, lower: char, upper: char)
    requires 'a' <= lower <= 'z' && upper as int == lower as int - 32
    ensures ToLowerAscii(c) == lower <==> c == lower || c == upper
  {
  }

  lemma EndsWithCsv(s: string)
    ensures EndsWith(s, ".csv") <==>
      |s| >= 4 && s[|s| - 4] == '.' && s[|s| - 3] == 'c' && s[|s| - 2] == 's' && s[|s| - 1] == 'v'
  {
    if |s| >= 4 {
      var tail := s[|s| - 4..];
      assert tail == [s[|s| - 4], s[|s| - 3], s[|s| - 2], s[|s| - 1]];
    }
  }

  /** `isCsvFile` checks the last four characters, ignoring the case of the letters. */
  lemma IsCsvFileIff(file: File)
    ensures IsCsvFile(file) <==>
      var n := file.name; var k := |n|;
      && k >= 4 && n[k - 4] == '.'
      && (n[k - 3] == 'c' || n[k - 3] == 'C')
      && (n[k - 2] == 's' || n[k - 2] == 'S')
      && (n[k - 1] == 'v' || n[k - 1] == 'V')
  {
    var n := file.name;
    var k := |n|;
    var low := ToLower(n);
    EndsWithCsv(low);
    if k >= 4 {
      assert low[k - 4] == ToLowerAscii(n[k - 4]);
      assert low[k - 3] == ToLowerAscii(n[k - 3]);
      assert low[k - 2] == ToLowerAscii(n[k - 2]);
      assert low[k - 1] == ToLowerAscii(n[k - 1]);
      LowerAsciiIs(n[k - 3], 'c', 'C');
      LowerAsciiIs(n[k - 2], 's', 'S');
      LowerAsciiIs(n[k - 1], 'v', 'V');
    }
  }

  lemma IsCsvFileExamples()
    ensures IsCsvFile(File("test.csv", []))
    ensures !IsCsvFile(File("test.txt", []))
    ensures IsCsvFile(File("TEST.CSV", []))
  {
    CsvNameAccepted("test.csv");
    TxtNameRejected();
    CsvNameAccepted("TEST.CSV");
  }

  lemma CsvNameAccepted(name: string)
    requires |name| == 8 && name[4] == '.'
    requires name[5] in "cC" && name[6] in "sS" && name[7] in "vV"
    ensures IsCsvFile(File(name, []))
  {
    IsCsvFileIff(File(name, []));
  }

  lemma TxtNameRejected()
    ensures !IsCsvFile(File("test.txt", []))
  {
    IsCsvFileIff(File("test.txt", []));
  }
}
