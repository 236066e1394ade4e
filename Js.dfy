/** The few pieces of JavaScript value semantics the graph view and the tag
    widget lean on: `undefined`, truthiness, string conversion,
    `String.prototype.split` on a one-character separator, `Array.prototype.join`,
    `toLowerCase` and `Number.prototype.toString` on integers. */
module Js {

  datatype Option<+T> = None | Some(value: T)

  /** A JS number that may be `undefined` is truthy when it is present and not 0. */
  predicate TruthyNumber(v: Option<int>) {
    v.Some? && v.value != 0
  }

  /** A JS string that may be `undefined` is truthy when it is present and not "". */
  predicate TruthyString(v: Option<string>) {
    v.Some? && v.value != ""
  }

  /** String conversion of a value that is a string or `undefined`, as `+` does it. */
  function StringOf(v: Option<string>): (r: string)
    ensures v.Some? ==> r == v.value
    ensures v.None? ==> r == "undefined"
  {
    match v
    case Some(s) => s
    case None => "undefined"
  }

  /** The values that end up as elements of an array that is joined:
      a string, a boolean, or `undefined`. */
  datatype Value = Str(s: string) | Bool(b: bool) | Undefined

  /** How `Array.prototype.join` renders one element: `undefined` becomes the
      empty string, a boolean its name. */
  function JoinText(v: Value): (r: string)
    ensures v.Undefined? ==> r == ""
    ensures v == Bool(false) ==> r == "false"
    ensures v.Str? ==> r == v.s
  {
    match v
    case Str(s) => s
    case Bool(b) => if b then "true" else "false"
    case Undefined => ""
  }

  /** `s.split(sep)` for a one-character separator: the pieces between the
      separators, never an empty list ("".split(sep) is [""]). */
  function Split(s: string, sep: char): (parts: seq<string>)
    ensures |parts| >= 1
    decreases |s|
  {
    if s == [] then [""]
    else if s[0] == sep then [""] + Split(s[1..], sep)
    else
      var rest := Split(s[1..], sep);
      [[s[0]] + rest[0]] + rest[1..]
  }

  /** No piece of a split contains the separator. */
  lemma {:induction false} SplitPiecesFree(s: string, sep: char)
    ensures forall i :: 0 <= i < |Split(s, sep)| ==> sep !in Split(s, sep)[i]
    decreases |s|
  {
    if s != [] {
      SplitPiecesFree(s[1..], sep);
      if s[0] != sep {
        var rest := Split(s[1..], sep);
        assert sep !in rest[0];
        assert forall i :: 0 <= i < |rest| - 1 ==> rest[1..][i] == rest[i + 1];
      }
    }
  }

  /** `parts.join(sep)` on strings. */
  function Join(parts: seq<string>, sep: char): string {
    if |parts| == 0 then ""
    else if |parts| == 1 then parts[0]
    else parts[0] + [sep] + Join(parts[1..], sep)
  }

  /** Joining five pieces puts a separator between neighbours. */
  lemma JoinFive(a: string, b: string, c: string, d: string, e: string, sep: char)
    ensures Join([a, b, c, d, e], sep) == a + [sep] + b + [sep] + c + [sep] + d + [sep] + e
  {
    var ps := [a, b, c, d, e];
    assert ps[1..] == [b, c, d, e] && ps[1..][1..] == [c, d, e];
    assert ps[1..][1..][1..] == [d, e] && ps[1..][1..][1..][1..] == [e];
    assert Join([d, e], sep) == d + [sep] + e;
    assert Join([c, d, e], sep) == c + [sep] + (d + [sep] + e);
    assert Join([b, c, d, e], sep) == b + [sep] + (c + [sep] + (d + [sep] + e));
  }

  /** The first two of five joined pieces, with their separators, are a prefix. */
  lemma JoinFivePrefix(a: string, b: string, c: string, d: string, e: string, sep: char)
    ensures var prefix := a + [sep] + b + [sep];
      |prefix| <= |Join([a, b, c, d, e], sep)| && Join([a, b, c, d, e], sep)[..|prefix|] == prefix
  {
    JoinFive(a, b, c, d, e, sep);
    var prefix := a + [sep] + b + [sep];
    var rest := c + [sep] + d + [sep] + e;
    assert a + [sep] + b + [sep] + c + [sep] + d + [sep] + e == prefix + rest;
    assert (prefix + rest)[..|prefix|] == prefix;
  }

  /** Splitting five joined pieces, of which only the second may hold the
      separator, gives the first piece, the pieces of the second, then the
      last three. */
  lemma JoinFiveSplit(a: string, b: string, c: string, d: string, e: string, sep: char)
    requires sep !in a && sep !in c && sep !in d && sep !in e
    ensures Split(Join([a, b, c, d, e], sep), sep) == [a] + Split(b, sep) + [c, d, e]
  {
    JoinFive(a, b, c, d, e, sep);
    var tail := c + [sep] + d + [sep] + e;
    assert [c, d, e][1..] == [d, e] && [d, e][1..] == [e];
    assert Join([d, e], sep) == d + [sep] + e;
    assert Join([c, d, e], sep) == c + [sep] + (d + [sep] + e);
    assert Join([c, d, e], sep) == tail;
    SplitJoin([c, d, e], sep);
    assert a + [sep] + b + [sep] + c + [sep] + d + [sep] + e == a + [sep] + (b + [sep] + tail);
    SplitConcat(a, b + [sep] + tail, sep);
    SplitConcat(b, tail, sep);
    SplitNoSeparator(a, sep);
  }

  /** Splitting at a separator splits the two sides independently. */
  lemma {:induction false} SplitConcat(a: string, b: string, sep: char)
    ensures Split(a + [sep] + b, sep) == Split(a, sep) + Split(b, sep)
    decreases |a|
  {
    if a == [] {
      assert a + [sep] + b == [sep] + b;
      SplitCons(sep, b, sep);
    } else {
      SplitConcat(a[1..], b, sep);
      SplitConcatStep(a, b, sep);
    }
  }

  /** The inductive step of `SplitConcat`: peel the first character of `a`. */
  lemma SplitConcatStep(a: string, b: string, sep: char)
    requires a != []
    requires Split(a[1..] + [sep] + b, sep) == Split(a[1..], sep) + Split(b, sep)
    ensures Split(a + [sep] + b, sep) == Split(a, sep) + Split(b, sep)
  {
    var c, tail := a[0], a[1..] + [sep] + b;
    assert a + [sep] + b == [c] + tail;
    assert a == [c] + a[1..];
    SplitConsAppend(c, a[1..], tail, Split(b, sep), sep);
  }

  /** If `tail` splits like `s` followed by extra pieces, so does `[c] + tail`
      like `[c] + s`. */
  lemma SplitConsAppend(c: char, s: string, tail: string, more: seq<string>, sep: char)
    requires Split(tail, sep) == Split(s, sep) + more
    ensures Split([c] + tail, sep) == Split([c] + s, sep) + more
  {
    SplitCons(c, tail, sep);
    SplitCons(c, s, sep);
    ConsPieceAppend(c, Split(s, sep), more, sep);
  }

  /** How a split grows when a character is put in front: a separator starts
      a new empty piece, any other character joins the first piece. */
  function ConsPiece(c: char, rest: seq<string>, sep: char): seq<string>
    requires |rest| >= 1
  {
    if c == sep then [""] + rest else [[c] + rest[0]] + rest[1..]
  }

  lemma ConsPieceAppend(c: char, rest: seq<string>, more: seq<string>, sep: char)
    requires |rest| >= 1
    ensures ConsPiece(c, rest + more, sep) == ConsPiece(c, rest, sep) + more
  {
    if c != sep {
      assert (rest + more)[1..] == rest[1..] + more;
    }
  }

  /** Splitting a string that starts with a given character. */
  lemma SplitCons(c: char, s: string, sep: char)
    ensures Split([c] + s, sep) == ConsPiece(c, Split(s, sep), sep)
  {
    assert ([c] + s)[0] == c && ([c] + s)[1..] == s;
  }

  /** A string without the separator splits into itself alone. */
  lemma {:induction false} SplitNoSeparator(s: string, sep: char)
    requires sep !in s
    ensures Split(s, sep) == [s]
    decreases |s|
  {
    if s != [] {
      SplitNoSeparator(s[1..], sep);
      assert [s[0]] + s[1..] == s;
    }
  }

  /** Joining pieces free of the separator and splitting again gives the pieces back. */
  lemma {:induction false} SplitJoin(parts: seq<string>, sep: char)
    requires |parts| >= 1
    requires forall i :: 0 <= i < |parts| ==> sep !in parts[i]
    ensures Split(Join(parts, sep), sep) == parts
    decreases |parts|
  {
    if |parts| == 1 {
      SplitNoSeparator(parts[0], sep);
    } else {
      SplitNoSeparator(parts[0], sep);
      SplitJoin(parts[1..], sep);
      SplitConcat(parts[0], Join(parts[1..], sep), sep);
      assert [parts[0]] + parts[1..] == parts;
    }
  }

  /** Splitting and joining again gives the string back. */
  lemma {:induction false} JoinSplit(s: string, sep: char)
    ensures Join(Split(s, sep), sep) == s
    decreases |s|
  {
    if s == [] {
    } else if s[0] == sep {
      JoinSplit(s[1..], sep);
      var rest := Split(s[1..], sep);
      assert ([""] + rest)[1..] == rest;
      assert [sep] + s[1..] == s;
    } else {
      JoinSplit(s[1..], sep);
      var rest := Split(s[1..], sep);
      var parts := [[s[0]] + rest[0]] + rest[1..];
      assert parts[1..] == rest[1..];
      if |rest| == 1 {
        assert [s[0]] + s[1..] == s;
      } else {
        assert Join(rest, sep) == rest[0] + [sep] + Join(rest[1..], sep);
        assert [s[0]] + s[1..] == s;
      }
    }
  }

  /** A string splits into one piece, itself, exactly when it has no separator. */
  lemma SplitShape(s: string, sep: char)
    ensures |Split(s, sep)| == 1 <==> sep !in s
    ensures sep !in s ==> Split(s, sep) == [s]
  {
    if sep !in s {
      SplitNoSeparator(s, sep);
    } else {
      JoinSplit(s, sep);
      SplitPiecesFree(s, sep);
    }
  }

  /** The piece after the last separator: `parts[parts.length - 1]`. */
  function LastSegment(s: string, sep: char): (r: string)
    ensures sep !in r
  {
    SplitPiecesFree(s, sep);
    var parts := Split(s, sep);
    parts[|parts| - 1]
  }

  /** Whatever precedes the last separator, the last segment is what follows it. */
  lemma LastSegmentAfter(prefix: string, name: string, sep: char)
    requires sep !in name
    ensures LastSegment(prefix + [sep] + name, sep) == name
  {
    SplitConcat(prefix, name, sep);
    SplitNoSeparator(name, sep);
  }

  /** `toLowerCase` on one character, for the ASCII letters. */
  function LowerChar(c: char): (r: char)
    ensures 'A' <= c <= 'Z' ==> r == c - 'A' + 'a'
    ensures !('A' <= c <= 'Z') ==> r == c
  {
    if 'A' <= c <= 'Z' then (c - 'A' + 'a') as char else c
  }

  /** `toLowerCase` on a string, for the ASCII letters. */
  function ToLower(s: string): (r: string)
    ensures |r| == |s|
    ensures forall i :: 0 <= i < |s| ==> r[i] == LowerChar(s[i])
  {
    seq(|s|, i requires 0 <= i < |s| => LowerChar(s[i]))
  }

  /** Lower-casing twice is lower-casing once. */
  lemma ToLowerIdempotent(s: string)
    ensures ToLower(ToLower(s)) == ToLower(s)
  {
    var t := ToLower(s);
    forall i | 0 <= i < |s| ensures ToLower(t)[i] == t[i] {
      assert !('A' <= t[i] <= 'Z');
    }
  }

  /** The lower-cased string has no upper-case letter, and lower-casing
      leaves a string unchanged exactly when it has none. */
  lemma ToLowerFixed(s: string)
    ensures forall i :: 0 <= i < |s| ==> !('A' <= ToLower(s)[i] <= 'Z')
    ensures ToLower(s) == s <==> forall i :: 0 <= i < |s| ==> !('A' <= s[i] <= 'Z')
  {
    if ToLower(s) == s {
      forall i | 0 <= i < |s| ensures !('A' <= s[i] <= 'Z') {
        assert ToLower(s)[i] == s[i];
      }
    }
  }

  function DigitChar(d: nat): (r: char)
    requires d < 10
    ensures '0' <= r <= '9'
  {
    ('0' as int + d) as char
  }

  /** Decimal digits of a natural number, most significant first. */
  function NatToString(n: nat): (r: string)
    ensures |r| >= 1
    ensures forall i :: 0 <= i < |r| ==> '0' <= r[i] <= '9'
    decreases n
  {
    if n < 10 then [DigitChar(n)] else NatToString(n / 10) + [DigitChar(n % 10)]
  }

  /** `n.toString()` for an integral JS number. */
  function IntToString(n: int): (r: string)
    ensures |r| >= 1
    ensures (r[0] == '-') <==> n < 0
  {
    if n < 0 then "-" + NatToString(-n) else NatToString(n)
  }

  /** The number a string of decimal digits denotes, most significant first. */
  function DecimalValue(s: string): int
    decreases |s|
  {
    if s == [] then 0 else DecimalValue(s[..|s| - 1]) * 10 + (s[|s| - 1] as int - '0' as int)
  }

  /** The number an optionally signed decimal numeral denotes. */
  function NumeralValue(s: string): int {
    if |s| > 0 && s[0] == '-' then -DecimalValue(s[1..]) else DecimalValue(s)
  }

  /** The digits of n denote n, and have no leading zero. */
  lemma {:induction false} NatToStringValue(n: nat)
    ensures DecimalValue(NatToString(n)) == n
    ensures NatToString(n)[0] == '0' ==> n == 0
    decreases n
  {
    if n >= 10 {
      NatToStringValue(n / 10);
      var r := NatToString(n);
      assert r[..|r| - 1] == NatToString(n / 10);
    }
  }

  /** The text of an integer is the canonical decimal numeral of that integer:
      an optional "-" (exactly for a negative integer) and then the digits of
      its magnitude, which read back as the magnitude and have no leading zero. */
  lemma IntToStringValue(n: int)
    ensures NumeralValue(IntToString(n)) == n
    ensures n < 0 ==> IntToString(n) == "-" + NatToString(-n)
    ensures n >= 0 ==> IntToString(n) == NatToString(n)
    ensures NatToString(if n < 0 then -n else n)[0] == '0' ==> n == 0
  {
    var m: nat := if n < 0 then -n else n;
    NatToStringValue(m);
    var digits := NatToString(m);
    if n < 0 {
      var r := "-" + digits;
      assert r[0] == '-' && r[1..] == digits;
    } else {
      assert digits[0] != '-';
    }
  }

  /** The default instance count prints as "-123". */
  lemma IntToStringMinus123()
    ensures IntToString(-123) == "-123"
  {
    assert NatToString(12) == "12";
    assert NatToString(123) == "123";
  }
}
