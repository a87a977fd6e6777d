/** Paging from the text of the `limit` and `next` parameters on: what a number parameter denotes, and what
    a request is served. */
module PageRequests {
  import opened Catalog
  import opened Timestamps
  import opened Pagination

  // ---------------------------------------------------------------- numbers in parameters

  /** What follows the sign. */
  function Body(whole: string, dotted: bool, fraction: string): string {
    whole + if dotted then "." + fraction else ""
  }

  /** A number as text: a sign or none, digits, and a dot with digits or none. */
  datatype Number = Number(sign: string, whole: string, dotted: bool, fraction: string) {
    predicate Valid() {
      && (sign == "" || sign == "+" || sign == "-") && AllDigits(whole) && AllDigits(fraction)
      && (fraction != "" ==> dotted) && (whole != "" || fraction != "")
    }

    function Text(): string {
      sign + Body(whole, dotted, fraction)
    }

    /** The number, times 10 to the power of the number of digits behind the dot. */
    function Scaled(): int
      requires Valid()
    {
      var x := Value(whole) * Pow10(|fraction|) + Value(fraction);
      if sign == "-" then 0 - x else x
    }
  }

  lemma {:induction false} ValueBound(s: string)
    requires AllDigits(s)
    ensures Value(s) < Pow10(|s|)
  {
    if s != [] {
      ValueBound(s[..|s| - 1]);
    }
  }

  lemma {:induction false} DotOf(whole: string, rest: string)
    requires AllDigits(whole) && (rest != "" ==> rest[0] == '.')
    ensures DotAt(whole + rest) == |whole|
  {
    if whole == "" {
      assert whole + rest == rest;
    } else {
      DotOf(whole[1..], rest);
      assert (whole + rest)[1..] == whole[1..] + rest;
    }
  }

  lemma BodyParts(whole: string, dotted: bool, fraction: string)
    requires AllDigits(whole) && (fraction != "" ==> dotted)
    ensures
      var body := Body(whole, dotted, fraction);
      && DotAt(body) == |whole| && body[..|whole|] == whole
      && (|whole| < |body| <==> dotted) && (dotted ==> body[|whole| + 1..] == fraction)
      && ((whole != "" || fraction != "") ==> body != "" && body[0] != '-' && body[0] != '+')
  {
    DotOf(whole, if dotted then "." + fraction else "");
  }

  lemma FloorOfParts(negative: bool, body: string, whole: string, fraction: string)
    requires AllDigits(whole) && AllDigits(fraction) && (whole != "" || fraction != "")
    requires DotAt(body) == |whole| && body[..|whole|] == whole
    requires fraction == if |whole| < |body| then body[|whole| + 1..] else []
    ensures FloorOf(negative, body) ==
              if negative then Some(0 - Value(whole) - if Value(fraction) == 0 then 0 else 1)
              else Some(Value(whole))
  {
  }

  lemma FloorOfBody(negative: bool, whole: string, dotted: bool, fraction: string)
    requires AllDigits(whole) && AllDigits(fraction) && (fraction != "" ==> dotted) && (whole != "" || fraction != "")
    ensures FloorOf(negative, Body(whole, dotted, fraction)) ==
              if negative then Some(0 - Value(whole) - if Value(fraction) == 0 then 0 else 1)
              else Some(Value(whole))
  {
    BodyParts(whole, dotted, fraction);
    FloorOfParts(negative, Body(whole, dotted, fraction), whole, fraction);
  }

  /** How the parser takes a number apart. */
  lemma NumberParts(x: Number)
    requires x.Valid()
    ensures FloorNumber(x.Text()) == FloorOf(x.sign == "-", Body(x.whole, x.dotted, x.fraction))
  {
    var body := Body(x.whole, x.dotted, x.fraction);
    BodyParts(x.whole, x.dotted, x.fraction);
    if x.sign == "" {
      assert x.Text() == body;
    } else {
      assert x.Text()[1..] == body;
    }
  }

  /** n is the floor of scaled / unit. */
  ghost predicate IsFloor(n: int, scaled: int, unit: nat) {
    n * unit <= scaled < (n + 1) * unit
  }

  lemma FloorBounds(whole: nat, fraction: nat, unit: nat)
    requires fraction < unit
    ensures IsFloor(whole, whole * unit + fraction, unit)
    ensures IsFloor(0 - whole - (if fraction == 0 then 0 else 1), 0 - (whole * unit + fraction), unit)
  {
    var x := whole * unit;
    assert (whole + 1) * unit == x + unit;
    if fraction == 0 {
      assert (0 - whole) * unit == 0 - x;
      assert (0 - whole + 1) * unit == 0 - x + unit;
    } else {
      assert (0 - whole - 1) * unit == 0 - x - unit;
      assert (0 - whole) * unit == 0 - x;
    }
  }

  function Floor(x: Number): int
    requires x.Valid()
  {
    if x.sign == "-" then 0 - Value(x.whole) - if Value(x.fraction) == 0 then 0 else 1 else Value(x.whole)
  }

  lemma NumberReads(x: Number)
    requires x.Valid()
    ensures FloorNumber(x.Text()) == Some(Floor(x))
  {
    NumberParts(x);
    FloorOfBody(x.sign == "-", x.whole, x.dotted, x.fraction);
  }

  lemma FloorIsFloor(x: Number)
    requires x.Valid()
    ensures IsFloor(Floor(x), x.Scaled(), Pow10(|x.fraction|))
  {
    ValueBound(x.fraction);
    FloorBounds(Value(x.whole), Value(x.fraction), Pow10(|x.fraction|));
  }

  /** A text that reads as a number reads as its floor. */
  lemma NumberIsFloor(x: Number)
    requires x.Valid()
    ensures FloorNumber(x.Text()).Some?
    ensures IsFloor(FloorNumber(x.Text()).value, x.Scaled(), Pow10(|x.fraction|))
  {
    NumberReads(x);
    FloorIsFloor(x);
  }

  lemma ReadableBody(negative: bool, body: string) returns (whole: string, dotted: bool, fraction: string)
    requires FloorOf(negative, body).Some?
    ensures AllDigits(whole) && AllDigits(fraction) && (fraction != "" ==> dotted) && (whole != "" || fraction != "")
    ensures body == Body(whole, dotted, fraction)
  {
    var dot := DotAt(body);
    whole, dotted := body[..dot], dot < |body|;
    fraction := if dotted then body[dot + 1..] else "";
    assert body == body[..dot] + body[dot..];
    if dotted {
      assert body[dot..] == "." + fraction;
    }
  }

  function SignOf(s: string): string {
    if s != "" && (s[0] == '-' || s[0] == '+') then s[..1] else ""
  }

  lemma SignSplits(s: string)
    ensures s == SignOf(s) + s[|SignOf(s)|..] && (SignOf(s) == "" || SignOf(s) == "+" || SignOf(s) == "-")
    ensures s != "" ==> FloorNumber(s) == FloorOf(SignOf(s) == "-", s[|SignOf(s)|..])
  {
    if SignOf(s) != "" {
      assert s[..1] == [s[0]];
    } else {
      assert s[0..] == s;
    }
  }

  lemma ReadableNumber(s: string) returns (x: Number)
    requires FloorNumber(s).Some? && s != ""
    ensures x.Valid() && x.Text() == s
  {
    SignSplits(s);
    var whole, dotted, fraction := ReadableBody(SignOf(s) == "-", s[|SignOf(s)|..]);
    x := Number(SignOf(s), whole, dotted, fraction);
  }

  /** A text reads as a number exactly when it is empty or one. */
  lemma ReadableIff(s: string)
    ensures FloorNumber(s).Some? <==> s == "" || exists x: Number :: x.Valid() && x.Text() == s
  {
    if x: Number :| x.Valid() && x.Text() == s {
      NumberReads(x);
    } else if FloorNumber(s).Some? && s != "" {
      var y := ReadableNumber(s);
    }
  }

  /** Quotes are ignored wherever they stand, and nothing else is. */
  lemma {:induction false} QuotesIgnored(a: string, b: string)
    ensures WithoutQuotes(a + b) == WithoutQuotes(a) + WithoutQuotes(b)
    ensures '\'' !in a && '"' !in a ==> WithoutQuotes(a) == a
    ensures WithoutQuotes("'") == "" && WithoutQuotes("\"") == ""
  {
    if a == "" {
      assert a + b == b;
    } else {
      QuotesIgnored(a[1..], b);
      assert (a + b)[1..] == a[1..] + b;
      assert a == [a[0]] + a[1..];
    }
  }

  // ---------------------------------------------------------------- what a request is served

  /** Paging with the two parameters as the client wrote them. */
  function PageOfTexts<T>(items: seq<T>, limit: Option<string>, next: Option<string>): PageResult<T> {
    GetPage(items, NumberQuery(limit), NumberQuery(next))
  }

  /** A request is rejected exactly when it has both numbers and asks for a page beyond the end. */
  lemma NoSuchPageIff<T>(items: seq<T>, limit: Option<string>, next: Option<string>)
    ensures PageOfTexts(items, limit, next).NoSuchPage? <==>
              && NumberQuery(limit).Some? && NumberQuery(next).Some?
              && NumberQuery(limit).value * NumberQuery(next).value > |items|
  {
  }

  /** Without a limit that can be read, a request is served the whole list, whatever `next` says, and no
      token. */
  lemma WholeList<T>(items: seq<T>, limit: Option<string>, next: Option<string>)
    requires
      limit == None || limit == Some("") ||
      (WithoutQuotes(limit.value) != "" && forall x: Number :: x.Valid() ==> x.Text() != WithoutQuotes(limit.value))
    ensures PageOfTexts(items, limit, next) == Served(Page(items, None, None))
  {
    if limit.Some? && limit.value != "" {
      ReadableIff(WithoutQuotes(limit.value));
    }
  }

  lemma SliceWithin<T>(items: seq<T>, from: nat, to: nat)
    requires from <= to && from <= |items|
    ensures Slice(items, from, to) == items[from..if to < |items| then to else |items|]
  {
  }

  lemma PageWithin<T>(items: seq<T>, limit: nat, page: nat, at: nat)
    requires at == limit * page <= |items|
    ensures
      var end := if at + limit < |items| then at + limit else |items|;
      var token := if end < |items| then Some(Decimal(page + 1)) else None;
      var r := Served(Page(items[at..end], Some(end < |items|), token));
      && GetPage(items, Some(limit), Some(page)) == r
      && (page == 0 ==> GetPage(items, Some(limit), None) == r)
  {
    SliceWithin(items, at, at + limit);
    assert Decimal(1) == "1";
  }

  /** With a limit that is a natural number, and a page that is one or none for the first, a request within
      the list is served the items from limit * page on, at most limit of them; there is more exactly when
      some are left, and then the token is the next page. */
  lemma PageServed<T>(
    items: seq<T>, limit: Option<string>, size: nat, next: Option<string>, page: nat, at: nat)
    requires NumberQuery(limit) == Some(size)
    requires NumberQuery(next) == Some(page) || (NumberQuery(next) == None && page == 0)
    requires at == size * page <= |items|
    ensures
      var end := if at + size < |items| then at + size else |items|;
      PageOfTexts(items, limit, next) ==
        Served(Page(items[at..end], Some(end < |items|), if end < |items| then Some(Decimal(page + 1)) else None))
  {
    PageWithin(items, size, page, at);
  }

  /** With a negative limit the first page leaves out that many items at the end, and claims more. */
  lemma NegativeLimit<T>(items: seq<T>, limit: Option<string>, size: int, next: Option<string>)
    requires NumberQuery(limit) == Some(size) && size < 0 && NumberQuery(next) == None
    ensures PageOfTexts(items, limit, next) ==
              Served(Page(if |items| + size < 0 then [] else items[..|items| + size], Some(true), Some("1")))
  {
  }
}
