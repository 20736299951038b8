/** Cell addressing: the table builds each cell's id as `${catI}-${clueI}`
    and the click handler splits the id on "-" to find the clue again. */
module CellIds {

  datatype Option<T> = None | Some(value: T)

  predicate IsDigit(ch: char)
  {
    '0' <= ch <= '9'
  }

  predicate AllDigits(s: string)
  {
    forall i :: 0 <= i < |s| ==> IsDigit(s[i])
  }

  /** A non-empty decimal numeral without leading zeros: the only strings
      that select an element when used as an array key. */
  predicate IsCanonical(s: string)
  {
    |s| > 0 && AllDigits(s) && (s[0] == '0' ==> |s| == 1)
  }

  function DigitChar(d: nat): (ch: char)
    requires d < 10
    ensures IsDigit(ch) && DigitValue(ch) == d
  {
    ('0' as int + d) as char
  }

  function DigitValue(ch: char): (d: nat)
    requires IsDigit(ch)
    ensures d < 10
  {
    ch as int - '0' as int
  }

  /** Decimal rendering of a number, as a template literal does it. */
  function NatToString(n: nat): (s: string)
    ensures IsCanonical(s)
    ensures s[0] == '0' <==> n == 0
    decreases n
  {
    if n < 10 then [DigitChar(n)] else NatToString(n / 10) + [DigitChar(n % 10)]
  }

  /** The value of a string of decimal digits. */
  function DigitsValue(s: string): nat
    requires AllDigits(s)
    decreases |s|
  {
    if s == [] then 0 else DigitsValue(s[..|s| - 1]) * 10 + DigitValue(s[|s| - 1])
  }

  /** Using a string as an index into an array: it selects element `n`
      exactly when it is the canonical numeral of `n`. */
  function ParseIndex(s: string): (r: Option<nat>)
    ensures r.Some? <==> IsCanonical(s)
  {
    if IsCanonical(s) then Some(DigitsValue(s)) else None
  }

  lemma {:induction false} DigitsValueOfNatToString(n: nat)
    ensures DigitsValue(NatToString(n)) == n
    decreases n
  {
    if n >= 10 {
      var p := NatToString(n / 10);
      DigitsValueOfNatToString(n / 10);
      assert (p + [DigitChar(n % 10)])[..|p|] == p;
    }
  }

  lemma {:induction false} NatToStringOfDigitsValue(s: string)
    requires IsCanonical(s)
    ensures NatToString(DigitsValue(s)) == s
    decreases |s|
  {
    if |s| > 1 {
      var p := s[..|s| - 1];
      var d := s[|s| - 1];
      assert IsCanonical(p);
      NatToStringOfDigitsValue(p);
      var n := DigitsValue(s);
      assert n / 10 == DigitsValue(p) && n % 10 == DigitValue(d);
      assert DigitChar(DigitValue(d)) == d;
      assert s == p + [d];
    } else {
      assert DigitChar(DigitValue(s[0])) == s[0];
    }
  }

  /** Index parsing and numeral rendering are inverse: a string selects
      element `n` exactly when it is the numeral of `n`. */
  lemma ParseIndexExact(s: string, n: nat)
    ensures ParseIndex(s) == Some(n) <==> s == NatToString(n)
  {
    if s == NatToString(n) {
      DigitsValueOfNatToString(n);
    }
    if ParseIndex(s) == Some(n) {
      NatToStringOfDigitsValue(s);
    }
  }

  /** JavaScript's `String.prototype.split` with a one-character separator:
      the pieces between separators, always at least one. */
  function Split(s: string, sep: char): (parts: seq<string>)
    ensures |parts| >= 1
    ensures forall i :: 0 <= i < |parts| ==> sep !in parts[i]
    decreases |s|
  {
    if s == [] then [""]
    else if s[0] == sep then [""] + Split(s[1..], sep)
    else
      var rest := Split(s[1..], sep);
      [[s[0]] + rest[0]] + rest[1..]
  }

  /** The pieces glued back together with the separator. */
  function Join(parts: seq<string>, sep: char): string
    requires |parts| >= 1
    decreases |parts|
  {
    if |parts| == 1 then parts[0] else parts[0] + [sep] + Join(parts[1..], sep)
  }

  /** Splitting loses nothing: joining the pieces gives the string back. */
  lemma {:induction false} JoinSplit(s: string, sep: char)
    ensures Join(Split(s, sep), sep) == s
    decreases |s|
  {
    if s != [] {
      JoinSplit(s[1..], sep);
      if s[0] != sep {
        var rest := Split(s[1..], sep);
        if |rest| > 1 {
          assert ([[s[0]] + rest[0]] + rest[1..])[1..] == rest[1..];
        }
      }
    }
  }

  lemma {:induction false} SplitNoSeparator(s: string, sep: char)
    requires sep !in s
    ensures Split(s, sep) == [s]
    decreases |s|
  {
    if s != [] {
      SplitNoSeparator(s[1..], sep);
      assert [s[0]] + s[1..] == s;
    }
  }

  lemma {:induction false} SplitAtFirst(a: string, sep: char, b: string)
    requires sep !in a
    ensures Split(a + [sep] + b, sep) == [a] + Split(b, sep)
    decreases |a|
  {
    var s := a + [sep] + b;
    if a == [] {
      assert s[1..] == b;
    } else {
      assert s[1..] == a[1..] + [sep] + b;
      SplitAtFirst(a[1..], sep, b);
      assert [a[0]] + a[1..] == a;
    }
  }

  /** The id `fillTable` gives the cell of clue `q` of category `c`: it
      splits on "-" into exactly the two numerals. */
  function CellId(c: nat, q: nat): (id: string)
    ensures Split(id, '-') == [NatToString(c), NatToString(q)]
  {
    var a := NatToString(c);
    var b := NatToString(q);
    DigitsHaveNoDash(a);
    DigitsHaveNoDash(b);
    SplitAtFirst(a, '-', b);
    SplitNoSeparator(b, '-');
    assert a + "-" + b == a + ['-'] + b;
    a + "-" + b
  }

  /** `handleClick`'s `id.split('-')` and the two array lookups by its first
      two pieces: the clue position the id selects, if any. A missing second
      piece, or a piece that is not an index, selects nothing. */
  function ParseCellId(id: string): (r: Option<(nat, nat)>)
    ensures r.Some? <==>
      |Split(id, '-')| >= 2 && IsCanonical(Split(id, '-')[0]) && IsCanonical(Split(id, '-')[1])
  {
    var parts := Split(id, '-');
    if |parts| < 2 then None
    else
      match (ParseIndex(parts[0]), ParseIndex(parts[1]))
      case (Some(c), Some(q)) => Some((c, q))
      case _ => None
  }

  lemma DigitsHaveNoDash(s: string)
    requires AllDigits(s)
    ensures '-' !in s
  {
  }

  /** Id round trip: splitting the id built for clue `q` of category `c`
      selects that very clue. */
  lemma CellIdRoundTrip(c: nat, q: nat)
    ensures ParseCellId(CellId(c, q)) == Some((c, q))
  {
    ParseIndexExact(NatToString(c), c);
    ParseIndexExact(NatToString(q), q);
  }

  lemma CellIdsRoundTrip()
    ensures forall c: nat, q: nat :: ParseCellId(CellId(c, q)) == Some((c, q))
  {
    forall c: nat, q: nat ensures ParseCellId(CellId(c, q)) == Some((c, q)) {
      CellIdRoundTrip(c, q);
    }
  }

  /** Distinct cells get distinct ids. */
  lemma CellIdInjective(c: nat, q: nat, c': nat, q': nat)
    ensures CellId(c, q) == CellId(c', q') <==> c == c' && q == q'
  {
    CellIdRoundTrip(c, q);
    CellIdRoundTrip(c', q');
  }

  /** The selector `#${catI}-${clueI}` that the click handler rebuilds from
      the pieces of a parsed id is the id of the clue it selected. */
  lemma SelectorOfParsedId(id: string)
    requires ParseCellId(id).Some?
    ensures var parts := Split(id, '-');
      parts[0] + "-" + parts[1] == CellId(ParseCellId(id).value.0, ParseCellId(id).value.1)
  {
    var parts := Split(id, '-');
    ParseIndexExact(parts[0], ParseCellId(id).value.0);
    ParseIndexExact(parts[1], ParseCellId(id).value.1);
  }
}
