/** The match[...] query parameters: from text to filter values, and what accepted values look like. */
module MatchQuery {
  import opened Catalog
  import opened Timestamps
  import opened Filter

  // ---------------------------------------------------------------- values of one field

  predicate IsSpace(c: char) {
    || c == ' ' || '\t' <= c <= '\r' || c == '\U{00A0}' || c == '\U{FEFF}' || c == '\U{1680}'
    || '\U{2000}' <= c <= '\U{200A}' || c == '\U{2028}' || c == '\U{2029}' || c == '\U{202F}'
    || c == '\U{205F}' || c == '\U{3000}'
  }

  function TrimStart(s: string): string {
    if s != [] && IsSpace(s[0]) then TrimStart(s[1..]) else s
  }

  function TrimEnd(s: string): string {
    if s != [] && IsSpace(s[|s| - 1]) then TrimEnd(s[..|s| - 1]) else s
  }

  function Trim(s: string): string {
    TrimEnd(TrimStart(s))
  }

  /** split(',') */
  function Split(s: string): (parts: seq<string>)
    ensures parts != []
  {
    if s == [] then [""]
    else
      var rest := Split(s[1..]);
      if s[0] == ',' then [""] + rest else [[s[0]] + rest[0]] + rest[1..]
  }

  function Join(vs: seq<string>): string {
    if vs == [] then ""
    else if |vs| == 1 then vs[0] else vs[0] + "," + Join(vs[1..])
  }

  /** Trims every part and drops the empty ones. */
  function Clean(parts: seq<string>): seq<string> {
    if parts == [] then []
    else
      var v := Trim(parts[0]);
      if v == "" then Clean(parts[1..]) else [v] + Clean(parts[1..])
  }

  function FieldValues(raw: string): seq<string> {
    Clean(Split(raw))
  }

  // ---------------------------------------------------------------- version values

  /** yyyy-mm-ddThh:mm:ss with at most three fraction digits, and Z. */
  predicate HasTimestampShape(s: string) {
    && |s| >= 20 && |s| <= 24 && |s| != 21
    && AllDigits(s[0..4]) && s[4] == '-' && AllDigits(s[5..7]) && s[7] == '-' && AllDigits(s[8..10])
    && s[10] == 'T' && AllDigits(s[11..13]) && s[13] == ':' && AllDigits(s[14..16]) && s[16] == ':'
    && AllDigits(s[17..19]) && s[|s| - 1] == 'Z'
    && (|s| > 20 ==> s[19] == '.' && AllDigits(s[20..|s| - 1]))
  }

  /** The fields are in the ranges a date parser accepts; hour 24 stands for midnight. */
  predicate HasDateRanges(s: string)
    requires HasTimestampShape(s)
  {
    var hour := Value(s[11..13]);
    var fraction := if |s| > 20 then s[20..|s| - 1] else [];
    && 1 <= Value(s[5..7]) <= 12 && 1 <= Value(s[8..10]) <= 31
    && Value(s[14..16]) < 60 && Value(s[17..19]) < 60
    && (hour < 24 || (hour == 24 && Value(s[14..16]) == 0 && Value(s[17..19]) == 0 && OnlyZeros(fraction)))
  }

  predicate OnlyZeros(s: string) {
    forall i :: 0 <= i < |s| ==> s[i] == '0'
  }

  predicate IsVersionValue(v: string) {
    IsKeyword(v) || (HasTimestampShape(v) && HasDateRanges(v))
  }

  predicate ValidVersions(values: seq<string>) {
    && ("all" in values ==> |values| <= 1)
    && forall i :: 0 <= i < |values| ==> IsVersionValue(values[i])
  }

  // ---------------------------------------------------------------- the query

  /** A query parameter occurs once, or several times. */
  datatype Raw = Once(text: string) | Repeated(texts: seq<string>)

  datatype Param = Param(key: string, value: Raw)

  datatype Field = Id | Kind | Version | SpecVersion

  datatype ParseResult = Parsed(match_: Option<Match>) | Rejected

  predicate IsWordChar(c: char) {
    'a' <= c <= 'z' || 'A' <= c <= 'Z' || IsDigit(c) || c == '_'
  }

  /** The name inside match[...], when the key has that form. */
  function KeyName(key: string): Option<string> {
    if "match[" <= key && |key| > 7 && key[|key| - 1] == ']' &&
       (forall i :: 6 <= i < |key| - 1 ==> IsWordChar(key[i]))
    then Some(key[6..|key| - 1]) else None
  }

  function FieldOf(name: string): Option<Field> {
    if name == "id" then Some(Id)
    else if name == "type" then Some(Kind)
    else if name == "version" then Some(Version)
    else if name == "spec_version" then Some(SpecVersion)
    else None
  }

  function With(m: Match, field: Field, values: seq<string>): Match {
    match field
    case Id => m.(ids := Some(values))
    case Kind => m.(kinds := Some(values))
    case Version => m.(versions := Some(values))
    case SpecVersion => m.(specVersions := Some(values))
  }

  /** One parameter's effect on the fields read so far; None is a rejection. */
  function Absorb(m: Match, p: Param): Option<Match> {
    match KeyName(p.key)
    case None => Some(m)
    case Some(name) =>
      match FieldOf(name)
      case None => None
      case Some(field) =>
        match p.value
        case Repeated(_) => None
        case Once(text) =>
          var values := FieldValues(text);
          if field.Version? && !ValidVersions(values) then None else Some(With(m, field, values))
  }

  function Fields(query: seq<Param>): Option<Match> {
    if query == [] then Some(NO_MATCH)
    else
      match Fields(query[..|query| - 1])
      case None => None
      case Some(m) => Absorb(m, query[|query| - 1])
  }

  /** Fills in the default version and turns "no field at all" into no filter. */
  function Finish(m: Match, latestByDefault: bool): Option<Match> {
    var n := if m.versions.None? && latestByDefault then m.(versions := Some(["last"])) else m;
    if n == NO_MATCH then None else Some(n)
  }

  function ParseQuery(query: seq<Param>, latestByDefault: bool): ParseResult {
    match Fields(query)
    case None => Rejected
    case Some(m) => Parsed(Finish(m, latestByDefault))
  }

  /** transform */
  method Transform(query: seq<Param>, latestByDefault: bool) returns (r: ParseResult)
    ensures r == ParseQuery(query, latestByDefault)
  {
    var data := NO_MATCH;
    for i := 0 to |query|
      invariant Fields(query[..i]) == Some(data)
    {
      assert query[..i + 1][..i] == query[..i];
      var name := KeyName(query[i].key);
      if name.Some? {
        var field := FieldOf(name.value);
        if field.None? || query[i].value.Repeated? {
          FieldsRejected(query, i + 1);
          return Rejected;
        }
        var values := FieldValues(query[i].value.text);
        if field.value.Version? && !ValidVersions(values) {
          FieldsRejected(query, i + 1);
          return Rejected;
        }
        data := With(data, field.value, values);
      }
    }
    assert query[..|query|] == query;
    r := Parsed(Finish(data, latestByDefault));
  }

  lemma {:induction false} FieldsRejected(query: seq<Param>, n: nat)
    requires n <= |query| && Fields(query[..n]) == None
    ensures Fields(query) == None
    decreases |query|
  {
    if n < |query| {
      assert query[..|query| - 1][..n] == query[..n];
      FieldsRejected(query[..|query| - 1], n);
    } else {
      assert query[..n] == query;
    }
  }

  // ---------------------------------------------------------------- normal form

  predicate IsNormalValue(v: string) {
    v != "" && ',' !in v && !IsSpace(v[0]) && !IsSpace(v[|v| - 1])
  }

  predicate AreNormal(values: seq<string>) {
    forall i :: 0 <= i < |values| ==> IsNormalValue(values[i])
  }

  predicate IsNormal(m: Match) {
    && AreNormal(Values(m.ids)) && AreNormal(Values(m.kinds)) && AreNormal(Values(m.versions))
    && AreNormal(Values(m.specVersions)) && ValidVersions(Values(m.versions))
  }

  lemma {:induction false} TrimStartNormal(s: string)
    ensures
      var t := TrimStart(s);
      (t != [] ==> !IsSpace(t[0])) && forall c :: c in t ==> c in s
  {
    if s != [] && IsSpace(s[0]) {
      TrimStartNormal(s[1..]);
    }
  }

  lemma {:induction false} TrimEndNormal(s: string)
    ensures
      var t := TrimEnd(s);
      t <= s && (t != [] ==> !IsSpace(t[|t| - 1])) && forall c :: c in t ==> c in s
  {
    if s != [] && IsSpace(s[|s| - 1]) {
      TrimEndNormal(s[..|s| - 1]);
    }
  }

  lemma TrimNormal(s: string)
    requires ',' !in s
    ensures Trim(s) != "" ==> IsNormalValue(Trim(s))
  {
    TrimStartNormal(s);
    TrimEndNormal(TrimStart(s));
  }

  lemma {:induction false} SplitCommaFree(s: string)
    ensures forall i :: 0 <= i < |Split(s)| ==> ',' !in Split(s)[i]
  {
    if s != [] {
      SplitCommaFree(s[1..]);
    }
  }

  lemma {:induction false} CleanNormal(parts: seq<string>)
    requires forall i :: 0 <= i < |parts| ==> ',' !in parts[i]
    ensures AreNormal(Clean(parts))
  {
    if parts != [] {
      TrimNormal(parts[0]);
      CleanNormal(parts[1..]);
    }
  }

  lemma FieldValuesNormal(raw: string)
    ensures AreNormal(FieldValues(raw))
  {
    SplitCommaFree(raw);
    CleanNormal(Split(raw));
  }

  lemma {:induction false} FieldsNormal(query: seq<Param>)
    requires Fields(query).Some?
    ensures IsNormal(Fields(query).value)
  {
    if query != [] {
      FieldsNormal(query[..|query| - 1]);
      var p := query[|query| - 1];
      if p.value.Once? {
        FieldValuesNormal(p.value.text);
      }
    }
  }

  /** Accepted values are trimmed, non-empty and comma-free, `all` occurs only alone, and every version
      value is a keyword or a timestamp. */
  lemma ParsedIsNormal(query: seq<Param>, latestByDefault: bool)
    requires ParseQuery(query, latestByDefault).Parsed? && ParseQuery(query, latestByDefault).match_.Some?
    ensures IsNormal(ParseQuery(query, latestByDefault).match_.value)
    ensures NonEmptyValues(ParseQuery(query, latestByDefault).match_.value)
  {
    FieldsNormal(query);
    var m := ParseQuery(query, latestByDefault).match_.value;
    if m != Fields(query).value {
      assert IsNormalValue("last") && Values(m.versions) == ["last"];
    }
  }

  // ---------------------------------------------------------------- parsing what was printed

  lemma {:induction false} SplitPlain(v: string, rest: string)
    requires ',' !in v
    ensures Split(v + "," + rest) == [v] + Split(rest) && Split(v) == [v]
  {
    if v == [] {
      assert v + "," + rest == "," + rest;
      assert ("," + rest)[1..] == rest;
    } else {
      SplitPlain(v[1..], rest);
      assert (v + "," + rest)[1..] == v[1..] + "," + rest;
      assert v == [v[0]] + v[1..];
    }
  }

  lemma TrimPlain(v: string)
    requires IsNormalValue(v)
    ensures Trim(v) == v
  {
  }

  /** Joining normal values with commas and reading them again gives the same values. */
  lemma {:induction false} JoinRoundTrip(vs: seq<string>)
    requires AreNormal(vs)
    ensures FieldValues(Join(vs)) == vs
  {
    if vs == [] {
      assert Split("") == [""] && Trim("") == "";
      assert Clean([""]) == Clean([""][1..]) == [];
    } else {
      TrimPlain(vs[0]);
      if |vs| == 1 {
        SplitPlain(vs[0], "");
        assert Clean([vs[0]]) == [vs[0]] + Clean([vs[0]][1..]);
        assert vs == [vs[0]];
      } else {
        SplitPlain(vs[0], Join(vs[1..]));
        JoinRoundTrip(vs[1..]);
        assert ([vs[0]] + Split(Join(vs[1..])))[1..] == Split(Join(vs[1..]));
      }
    }
  }

  function FieldKey(field: Field): string {
    match field
    case Id => "match[id]"
    case Kind => "match[type]"
    case Version => "match[version]"
    case SpecVersion => "match[spec_version]"
  }

  lemma FieldKeyNames(field: Field)
    ensures KeyName(FieldKey(field)).Some? && FieldOf(KeyName(FieldKey(field)).value) == Some(field)
  {
    match field
    case Id => assert "match[id]"[6..8] == "id";
    case Kind => assert "match[type]"[6..10] == "type";
    case Version => assert "match[version]"[6..13] == "version";
    case SpecVersion => assert "match[spec_version]"[6..18] == "spec_version";
  }

  function PrintField(field: Field, values: Option<seq<string>>): seq<Param> {
    match values
    case None => []
    case Some(vs) => [Param(FieldKey(field), Once(Join(vs)))]
  }

  function FieldNo(n: nat): Field {
    if n == 0 then Id else if n == 1 then Kind else if n == 2 then Version else SpecVersion
  }

  function ValuesOf(m: Match, field: Field): Option<seq<string>> {
    match field
    case Id => m.ids
    case Kind => m.kinds
    case Version => m.versions
    case SpecVersion => m.specVersions
  }

  /** The first n fields of a match, and the query that spells them out. */
  function FirstFields(m: Match, n: nat): Match {
    Match(if n > 0 then m.ids else None, if n > 1 then m.kinds else None,
          if n > 2 then m.versions else None, if n > 3 then m.specVersions else None)
  }

  function PrintFields(m: Match, n: nat): seq<Param> {
    if n == 0 then [] else PrintFields(m, n - 1) + PrintField(FieldNo(n - 1), ValuesOf(m, FieldNo(n - 1)))
  }

  /** The query that spells a match out. */
  function PrintMatch(m: Match): seq<Param> {
    PrintFields(m, 4)
  }

  function Merge(m: Match, field: Field, values: Option<seq<string>>): Match {
    if values.None? then m else With(m, field, values.value)
  }

  /** Printing one more field and parsing the longer query adds that field. */
  lemma FieldsAppend(query: seq<Param>, m: Match, field: Field, values: Option<seq<string>>)
    requires Fields(query) == Some(m)
    requires AreNormal(Values(values)) && (field.Version? ==> ValidVersions(Values(values)))
    ensures Fields(query + PrintField(field, values)) == Some(Merge(m, field, values))
  {
    if values.None? {
      assert query + [] == query;
    } else {
      JoinRoundTrip(values.value);
      FieldKeyNames(field);
      var p := Param(FieldKey(field), Once(Join(values.value)));
      assert (query + [p])[..|query|] == query;
    }
  }

  lemma FirstFieldsMerge(m: Match, n: nat)
    requires n < 4
    ensures FirstFields(m, n + 1) == Merge(FirstFields(m, n), FieldNo(n), ValuesOf(m, FieldNo(n)))
  {
  }

  lemma FieldsAreNormal(m: Match, field: Field)
    requires IsNormal(m)
    ensures AreNormal(Values(ValuesOf(m, field)))
    ensures field.Version? ==> ValidVersions(Values(ValuesOf(m, field)))
  {
  }

  lemma {:induction false} PrintedFields(m: Match, n: nat)
    requires IsNormal(m) && n <= 4
    ensures Fields(PrintFields(m, n)) == Some(FirstFields(m, n))
  {
    if n > 0 {
      var field := FieldNo(n - 1);
      var values := ValuesOf(m, field);
      PrintedFields(m, n - 1);
      FieldsAreNormal(m, field);
      FirstFieldsMerge(m, n - 1);
      FieldsAppend(PrintFields(m, n - 1), FirstFields(m, n - 1), field, values);
      assert PrintFields(m, n) == PrintFields(m, n - 1) + PrintField(field, values);
    }
  }

  /** Match parsing normal form: joining what was parsed with commas and parsing it again gives the same
      filter, for any accepted query. */
  lemma ParsingIsIdempotent(query: seq<Param>, latestByDefault: bool)
    requires ParseQuery(query, latestByDefault).Parsed? && ParseQuery(query, latestByDefault).match_.Some?
    ensures
      var m := ParseQuery(query, latestByDefault).match_.value;
      ParseQuery(PrintMatch(m), latestByDefault) == Parsed(Some(m))
  {
    ParsedIsNormal(query, latestByDefault);
    PrintedFields(ParseQuery(query, latestByDefault).match_.value, 4);
  }

  // ---------------------------------------------------------------- canonical timestamps

  lemma IsoShape(t: Time)
    ensures |Iso(t)| == 24 && HasTimestampShape(Iso(t))
  {
    PrintParts(Timestamps.Fields(t));
  }

  lemma IsoRanges(t: Time)
    requires HasTimestampShape(Iso(t))
    ensures HasDateRanges(Iso(t))
  {
    PrintParts(Timestamps.Fields(t));
    Timestamps.FieldValues(Timestamps.Fields(t));
  }

  /** Every canonical timestamp is an accepted version value. */
  lemma IsoAccepted(t: Time)
    ensures IsNormalValue(Iso(t)) && IsVersionValue(Iso(t)) && !IsKeyword(Iso(t))
  {
    IsoShape(t);
    IsoRanges(t);
    ShapeIsNormal(Iso(t));
  }

  lemma ShapeIsNormal(s: string)
    requires HasTimestampShape(s) && |s| == 24
    ensures IsNormalValue(s)
  {
    forall i | 0 <= i < |s|
      ensures s[i] != ','
    {
      NoComma(s, i);
    }
    assert IsDigit(s[0..4][0]);
  }

  lemma NoComma(s: string, i: nat)
    requires HasTimestampShape(s) && |s| == 24 && i < 24
    ensures s[i] != ','
  {
    assert i < 4 ==> s[0..4][i] == s[i];
    assert 5 <= i < 7 ==> s[5..7][i - 5] == s[i];
    assert 8 <= i < 10 ==> s[8..10][i - 8] == s[i];
    assert 11 <= i < 13 ==> s[11..13][i - 11] == s[i];
    assert 14 <= i < 16 ==> s[14..16][i - 14] == s[i];
    assert 17 <= i < 19 ==> s[17..19][i - 17] == s[i];
    assert 20 <= i < 23 ==> s[20..23][i - 20] == s[i];
  }
}
