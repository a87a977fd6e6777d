/** What the text of a query says: which parameters are refused, which values a field gets, and how a
    value list and a timestamp are written. */
module QueryText {
  import opened Catalog
  import Timestamps
  import opened Filter
  import opened MatchQuery

  // ---------------------------------------------------------------- fields

  lemma KeyNameIff(key: string, name: string)
    ensures KeyName(key) == Some(name) <==>
              name != "" && (forall c :: c in name ==> IsWordChar(c)) && key == "match[" + name + "]"
  {
    if name != "" && (forall c :: c in name ==> IsWordChar(c)) && key == "match[" + name + "]" {
      assert key[6..|key| - 1] == name;
      assert forall i :: 6 <= i < |key| - 1 ==> key[i] == name[i - 6];
      assert "match[" == key[..6];
      assert key[|key| - 1] == ']';
    }
    if KeyName(key) == Some(name) {
      assert key == key[..6] + key[6..|key| - 1] + [key[|key| - 1]];
      assert forall i :: 0 <= i < |name| ==> name[i] == key[i + 6];
    }
  }

  lemma FieldKeyIff(key: string, field: Field)
    ensures (KeyName(key).Some? && FieldOf(KeyName(key).value) == Some(field)) <==> key == FieldKey(field)
  {
    FieldKeyNames(field);
    if KeyName(key).Some? {
      KeyNameIff(key, KeyName(key).value);
    }
  }

  /** Parameter i is the one that gives the field. In a query object every key occurs once. */
  ghost predicate Gives(query: seq<Param>, field: Field, i: nat) {
    && i < |query| && query[i].key == FieldKey(field)
    && forall j :: i < j < |query| ==> query[j].key != FieldKey(field)
  }

  lemma AbsorbField(m: Match, p: Param, field: Field)
    requires Absorb(m, p).Some?
    ensures p.key != FieldKey(field) ==> ValuesOf(Absorb(m, p).value, field) == ValuesOf(m, field)
    ensures p.key == FieldKey(field) ==>
              p.value.Once? && ValuesOf(Absorb(m, p).value, field) == Some(FieldValues(p.value.text))
  {
    FieldKeyIff(p.key, field);
  }

  /** Without a parameter of its key a field is absent. */
  lemma {:induction false} FieldAbsent(query: seq<Param>, field: Field)
    requires Fields(query).Some? && forall i :: 0 <= i < |query| ==> query[i].key != FieldKey(field)
    ensures ValuesOf(Fields(query).value, field) == None
  {
    if query != [] {
      var n := |query| - 1;
      FieldAbsent(query[..n], field);
      AbsorbField(Fields(query[..n]).value, query[n], field);
    }
  }

  /** With one, it has the values of its text. */
  lemma {:induction false} FieldGiven(query: seq<Param>, field: Field, i: nat)
    requires Fields(query).Some? && Gives(query, field, i)
    ensures query[i].value.Once?
    ensures ValuesOf(Fields(query).value, field) == Some(FieldValues(query[i].value.text))
  {
    var n := |query| - 1;
    AbsorbField(Fields(query[..n]).value, query[n], field);
    if i < n {
      FieldGiven(query[..n], field, i);
    }
  }

  /** What an accepted query asks in a field, once defaults are in. */
  function Asked(query: seq<Param>, latestByDefault: bool, field: Field): Option<seq<string>>
    requires ParseQuery(query, latestByDefault).Parsed?
  {
    var m := ParseQuery(query, latestByDefault).match_;
    if m.Some? then ValuesOf(m.value, field) else None
  }

  /** Without match[version] the version filter is `last` alone where latest versions are the default, and
      absent where all versions are; any other field is absent without its parameter. */
  lemma AskedByDefault(query: seq<Param>, latestByDefault: bool, field: Field)
    requires ParseQuery(query, latestByDefault).Parsed?
    requires forall i :: 0 <= i < |query| ==> query[i].key != FieldKey(field)
    ensures Asked(query, latestByDefault, field) ==
              if field.Version? && latestByDefault then Some(["last"]) else None
  {
    FieldAbsent(query, field);
  }

  /** With its parameter, a field asks for the values of the text. */
  lemma AskedByText(query: seq<Param>, latestByDefault: bool, field: Field, i: nat)
    requires ParseQuery(query, latestByDefault).Parsed? && Gives(query, field, i)
    ensures query[i].value.Once? && Asked(query, latestByDefault, field) == Some(FieldValues(query[i].value.text))
  {
    FieldGiven(query, field, i);
  }

  /** A query without match parameters. */
  lemma {:induction false} NoFields(query: seq<Param>)
    requires forall i :: 0 <= i < |query| ==> KeyName(query[i].key).None?
    ensures Fields(query) == Some(NO_MATCH)
  {
    if query != [] {
      NoFields(query[..|query| - 1]);
    }
  }

  // ---------------------------------------------------------------- rejections

  /** `all` stands alone, and every value is a keyword or a timestamp. */
  ghost predicate GoodVersions(values: seq<string>) {
    && ("all" in values ==> values == ["all"])
    && forall v :: v in values ==> v == "all" || v == "first" || v == "last" || IsTimestamp(v)
  }

  /** The parameter is a match parameter with an unknown field, with several texts, or with a version
      list that is not good. */
  ghost predicate Refused(p: Param) {
    exists name ::
      && name != "" && (forall c :: c in name ==> IsWordChar(c)) && p.key == "match[" + name + "]"
      && (!(name == "id" || name == "type" || name == "version" || name == "spec_version") ||
          p.value.Repeated? || (name == "version" && !GoodVersions(FieldValues(p.value.text))))
  }

  lemma GoodVersionsIff(values: seq<string>)
    ensures ValidVersions(values) <==> GoodVersions(values)
  {
    forall v
      ensures IsVersionValue(v) <==> v == "all" || v == "first" || v == "last" || IsTimestamp(v)
    {
      IsTimestampIff(v);
    }
    if ValidVersions(values) {
      assert forall v :: v in values ==> IsVersionValue(v);
    }
    if GoodVersions(values) {
      assert forall i :: 0 <= i < |values| ==> values[i] in values;
    }
  }

  lemma RefusedIff(p: Param, m: Match)
    ensures Absorb(m, p) == None <==> Refused(p)
  {
    if p.value.Once? {
      GoodVersionsIff(FieldValues(p.value.text));
    }
    if KeyName(p.key).Some? {
      KeyNameIff(p.key, KeyName(p.key).value);
    }
    if Refused(p) {
      var name :| name != "" && (forall c :: c in name ==> IsWordChar(c)) && p.key == "match[" + name + "]" &&
                  (!(name == "id" || name == "type" || name == "version" || name == "spec_version") ||
                   p.value.Repeated? || (name == "version" && !GoodVersions(FieldValues(p.value.text))));
      KeyNameIff(p.key, name);
    }
  }

  lemma {:induction false} FieldsRefusedIff(query: seq<Param>)
    ensures Fields(query) == None <==> exists i :: 0 <= i < |query| && Refused(query[i])
  {
    if query != [] {
      var n := |query| - 1;
      FieldsRefusedIff(query[..n]);
      assert forall i :: 0 <= i < n ==> query[..n][i] == query[i];
      if Fields(query[..n]).Some? {
        RefusedIff(query[n], Fields(query[..n]).value);
      }
    }
  }

  /** A query is rejected exactly when one of its parameters is refused. */
  lemma RejectedIff(query: seq<Param>, latestByDefault: bool)
    ensures ParseQuery(query, latestByDefault).Rejected? <==> exists i :: 0 <= i < |query| && Refused(query[i])
  {
    FieldsRefusedIff(query);
  }

  // ---------------------------------------------------------------- timestamps

  function Date(y: string, mo: string, d: string): string {
    y + "-" + mo + "-" + d + "T"
  }

  function Clock(h: string, mi: string, s: string): string {
    h + ":" + mi + ":" + s
  }

  function Tail(fraction: string): string {
    (if fraction == "" then "" else "." + fraction) + "Z"
  }

  function Spelled(y: string, mo: string, d: string, h: string, mi: string, s: string, fraction: string): string {
    Date(y, mo, d) + Clock(h, mi, s) + Tail(fraction)
  }

  predicate Digits(s: string, n: nat) {
    |s| == n && Timestamps.AllDigits(s)
  }

  /** The digits of a timestamp; hour 24 stands for the end of the day. */
  ghost predicate AreDigits(
    y: string, mo: string, d: string, h: string, mi: string, s: string, fraction: string)
  {
    && Digits(y, 4) && Digits(mo, 2) && Digits(d, 2) && Digits(h, 2) && Digits(mi, 2) && Digits(s, 2)
    && |fraction| <= 3 && Timestamps.AllDigits(fraction)
  }

  ghost predicate InRange(mo: string, d: string, h: string, mi: string, s: string, fraction: string)
    requires Timestamps.AllDigits(mo) && Timestamps.AllDigits(d) && Timestamps.AllDigits(h)
    requires Timestamps.AllDigits(mi) && Timestamps.AllDigits(s)
  {
    var hour, minute, second := Timestamps.Value(h), Timestamps.Value(mi), Timestamps.Value(s);
    && 1 <= Timestamps.Value(mo) <= 12 && 1 <= Timestamps.Value(d) <= 31 && minute <= 59 && second <= 59
    && (hour <= 23 || (hour == 24 && minute == 0 && second == 0 && OnlyZeros(fraction)))
  }

  ghost predicate IsTimestamp(v: string) {
    exists y, mo, d, h, mi, s, fraction ::
      && AreDigits(y, mo, d, h, mi, s, fraction) && InRange(mo, d, h, mi, s, fraction)
      && v == Spelled(y, mo, d, h, mi, s, fraction)
  }

  function FractionOf(v: string): string
    requires |v| >= 20
  {
    if |v| > 20 then v[20..|v| - 1] else ""
  }

  lemma DateParts(y: string, mo: string, d: string)
    requires |y| == 4 && |mo| == 2 && |d| == 2
    ensures
      var v := Date(y, mo, d);
      |v| == 11 && v[0..4] == y && v[4] == '-' && v[5..7] == mo && v[7] == '-' && v[8..10] == d && v[10] == 'T'
  {
  }

  lemma ClockParts(h: string, mi: string, s: string)
    requires |h| == 2 && |mi| == 2 && |s| == 2
    ensures
      var v := Clock(h, mi, s);
      |v| == 8 && v[0..2] == h && v[2] == ':' && v[3..5] == mi && v[5] == ':' && v[6..8] == s
  {
  }

  /** Three texts after one another, and where the characters of the first two and the last are. */
  lemma ThreeTexts(date: string, clock: string, tail: string)
    requires |date| == 11 && |clock| == 8
    ensures
      var v := date + clock + tail;
      && |v| == 19 + |tail| && v[..11] == date && v[11..19] == clock && v[19..] == tail
  {
  }

  lemma DateSlices(v: string)
    requires |v| >= 19
    ensures v[0..4] == v[..11][0..4] && v[5..7] == v[..11][5..7] && v[8..10] == v[..11][8..10]
    ensures v[4] == v[..11][4] && v[7] == v[..11][7] && v[10] == v[..11][10]
  {
  }

  lemma ClockSlices(v: string)
    requires |v| >= 19
    ensures v[11..13] == v[11..19][0..2] && v[14..16] == v[11..19][3..5] && v[17..19] == v[11..19][6..8]
    ensures v[13] == v[11..19][2] && v[16] == v[11..19][5]
  {
  }

  lemma TailSlices(v: string, fraction: string)
    requires |v| >= 20 && v[19..] == Tail(fraction)
    ensures FractionOf(v) == fraction && v[|v| - 1] == 'Z' && (|v| > 20 ==> v[19] == '.')
    ensures |v| == if fraction == "" then 20 else 21 + |fraction|
  {
    assert forall i :: 19 <= i < |v| ==> v[i] == v[19..][i - 19];
    if fraction != "" {
      assert v[20..|v| - 1] == v[19..][1..|fraction| + 1] == fraction;
    }
  }

  lemma SpelledParts(y: string, mo: string, d: string, h: string, mi: string, s: string, fraction: string)
    requires AreDigits(y, mo, d, h, mi, s, fraction)
    ensures
      var v := Spelled(y, mo, d, h, mi, s, fraction);
      && HasTimestampShape(v)
      && v[0..4] == y && v[5..7] == mo && v[8..10] == d && v[11..13] == h && v[14..16] == mi && v[17..19] == s
      && FractionOf(v) == fraction
  {
    var v := Spelled(y, mo, d, h, mi, s, fraction);
    DateParts(y, mo, d);
    ClockParts(h, mi, s);
    ThreeTexts(Date(y, mo, d), Clock(h, mi, s), Tail(fraction));
    DateSlices(v);
    ClockSlices(v);
    TailSlices(v, fraction);
  }

  lemma PartsSpelled(v: string)
    requires HasTimestampShape(v)
    ensures v == Spelled(v[0..4], v[5..7], v[8..10], v[11..13], v[14..16], v[17..19], FractionOf(v))
  {
    DateParts(v[0..4], v[5..7], v[8..10]);
    ClockParts(v[11..13], v[14..16], v[17..19]);
    assert v[..11] == Date(v[0..4], v[5..7], v[8..10]);
    assert v[11..19] == Clock(v[11..13], v[14..16], v[17..19]);
    assert v[19..] == Tail(FractionOf(v));
  }

  /** The test of version values accepts, besides the keywords, exactly the timestamps. */
  lemma IsTimestampIff(v: string)
    ensures HasTimestampShape(v) && HasDateRanges(v) <==> IsTimestamp(v)
  {
    if HasTimestampShape(v) && HasDateRanges(v) {
      PartsSpelled(v);
      assert AreDigits(v[0..4], v[5..7], v[8..10], v[11..13], v[14..16], v[17..19], FractionOf(v));
    }
    if IsTimestamp(v) {
      var y, mo, d, h, mi, s, fraction :|
        AreDigits(y, mo, d, h, mi, s, fraction) && InRange(mo, d, h, mi, s, fraction) &&
        v == Spelled(y, mo, d, h, mi, s, fraction);
      SpelledParts(y, mo, d, h, mi, s, fraction);
    }
  }

  /** The canonical text of an instant is a timestamp whose numbers are the instant's fields. */
  lemma IsoSpells(t: Timestamps.Time)
    returns (y: string, mo: string, d: string, h: string, mi: string, s: string, fraction: string)
    ensures AreDigits(y, mo, d, h, mi, s, fraction) && |fraction| == 3
    ensures Timestamps.Iso(t) == Spelled(y, mo, d, h, mi, s, fraction)
    ensures t == Timestamps.Code(Timestamps.Stamp(
                   Timestamps.Value(y), Timestamps.Value(mo), Timestamps.Value(d), Timestamps.Value(h),
                   Timestamps.Value(mi), Timestamps.Value(s), Timestamps.Value(fraction)))
  {
    var v, f := Timestamps.Iso(t), Timestamps.Fields(t);
    y, mo, d, h, mi, s, fraction := v[0..4], v[5..7], v[8..10], v[11..13], v[14..16], v[17..19], FractionOf(v);
    IsoShape(t);
    PartsSpelled(v);
    Timestamps.PrintParts(f);
    Timestamps.FieldValues(f);
    Timestamps.FieldsCode(t);
  }

  // ---------------------------------------------------------------- value lists

  ghost predicate Blank(s: string) {
    forall c :: c in s ==> IsSpace(c)
  }

  lemma {:induction false} TrimStartDrops(s: string) returns (pad: string)
    ensures Blank(pad) && s == pad + TrimStart(s)
  {
    if s != [] && IsSpace(s[0]) {
      var more := TrimStartDrops(s[1..]);
      pad := [s[0]] + more;
    } else {
      pad := "";
    }
  }

  lemma {:induction false} TrimEndDrops(s: string) returns (pad: string)
    ensures Blank(pad) && s == TrimEnd(s) + pad
  {
    if s != [] && IsSpace(s[|s| - 1]) {
      var more := TrimEndDrops(s[..|s| - 1]);
      pad := more + [s[|s| - 1]];
    } else {
      pad := "";
    }
  }

  /** Trimming takes away white space at both ends and nothing else, and leaves none there. */
  lemma TrimDrops(s: string) returns (before: string, after: string)
    ensures Blank(before) && Blank(after) && s == before + Trim(s) + after
    ensures Trim(s) != "" ==> !IsSpace(Trim(s)[0]) && !IsSpace(Trim(s)[|Trim(s)| - 1])
  {
    before := TrimStartDrops(s);
    after := TrimEndDrops(TrimStart(s));
    TrimStartNormal(s);
    TrimEndNormal(TrimStart(s));
    assert s == before + (Trim(s) + after);
  }

  /** Splitting at the commas loses nothing. */
  lemma {:induction false} SplitJoins(s: string)
    ensures Join(Split(s)) == s && forall i :: 0 <= i < |Split(s)| ==> ',' !in Split(s)[i]
  {
    SplitCommaFree(s);
    if s != [] {
      SplitJoins(s[1..]);
      var rest := Split(s[1..]);
      if s[0] == ',' {
        assert ([""] + rest)[1..] == rest;
      } else if |rest| > 1 {
        assert ([[s[0]] + rest[0]] + rest[1..])[1..] == rest[1..];
      }
      assert s == [s[0]] + s[1..];
    }
  }

  lemma CleanOne(part: string)
    ensures Clean([part]) == if Trim(part) == "" then [] else [Trim(part)]
  {
    assert [part][1..] == [];
  }

  /** The values of a text are its parts between commas, in order, each trimmed; an empty one gives none. */
  lemma {:induction false} CleanConcat(a: seq<string>, part: string)
    ensures Clean(a + [part]) == Clean(a) + if Trim(part) == "" then [] else [Trim(part)]
  {
    if a == [] {
      CleanOne(part);
      assert a + [part] == [part];
    } else {
      CleanConcat(a[1..], part);
      assert (a + [part])[1..] == a[1..] + [part];
    }
  }
}
