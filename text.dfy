/**
 * The string operations the attribute and version renderers use:
 * strings.Join, its inverse strings.Split, and "%d" formatting.
 */
module Text {
  import opened Wrappers

  /** strings.Join: the parts in order, with sep between neighbours. */
  function Join(parts: seq<string>, sep: char): string
  {
    if |parts| == 0 then ""
    else if |parts| == 1 then parts[0]
    else parts[0] + [sep] + Join(parts[1..], sep)
  }

  /** strings.Split on a one-character separator: the maximal sep-free pieces, at least one. */
  function Split(s: string, sep: char): (r: seq<string>)
    ensures |r| >= 1
  {
    if |s| == 0 then [""]
    else
      var rest := Split(s[1..], sep);
      if s[0] == sep then [""] + rest
      else [[s[0]] + rest[0]] + rest[1..]
  }

  /** The pieces of a joined string, reading the empty string as no pieces at all. */
  function Fields(s: string, sep: char): seq<string>
  {
    if s == "" then [] else Split(s, sep)
  }

  /** Every part is non-empty and free of the separator, so joining loses nothing. */
  predicate Plain(parts: seq<string>, sep: char)
  {
    forall i :: 0 <= i < |parts| ==> parts[i] != "" && sep !in parts[i]
  }

  lemma {:induction false} SplitNoSep(p: string, sep: char)
    requires sep !in p
    ensures Split(p, sep) == [p]
  {
    if p != [] {
      SplitNoSep(p[1..], sep);
      assert [p[0]] + p[1..] == p;
    }
  }

  lemma {:induction false} SplitAfter(p: string, sep: char, t: string)
    requires sep !in p
    ensures Split(p + [sep] + t, sep) == [p] + Split(t, sep)
  {
    var s := p + [sep] + t;
    if p == [] {
      assert s[1..] == t;
    } else {
      assert s[1..] == p[1..] + [sep] + t;
      SplitAfter(p[1..], sep, t);
      assert [p[0]] + p[1..] == p;
    }
  }

  /** Splitting a join of separator-free parts gives the parts back. */
  lemma {:induction false} SplitJoin(parts: seq<string>, sep: char)
    requires |parts| >= 1
    requires forall i :: 0 <= i < |parts| ==> sep !in parts[i]
    ensures Split(Join(parts, sep), sep) == parts
  {
    if |parts| == 1 {
      SplitNoSep(parts[0], sep);
    } else {
      SplitAfter(parts[0], sep, Join(parts[1..], sep));
      SplitJoin(parts[1..], sep);
      assert [parts[0]] + parts[1..] == parts;
    }
  }

  /** Fields is the inverse of Join on plain parts, the empty list included. */
  lemma FieldsJoin(parts: seq<string>, sep: char)
    requires Plain(parts, sep)
    ensures Fields(Join(parts, sep), sep) == parts
  {
    if parts != [] {
      assert |Join(parts, sep)| >= |parts[0]| > 0;
      SplitJoin(parts, sep);
    }
  }

  /** The decimal digit character for d. */
  function Digit(d: nat): char
    requires d < 10
  {
    ('0' as int + d) as char
  }

  /** "%d" formatting of a natural number: no sign, no leading zeros. */
  function Decimal(n: nat): (s: string)
    ensures |s| >= 1
    ensures forall i :: 0 <= i < |s| ==> '0' <= s[i] <= '9'
  {
    if n < 10 then [Digit(n)] else Decimal(n / 10) + [Digit(n % 10)]
  }

  /** Reads a non-empty run of decimal digits back into a number. */
  function ParseDecimal(s: string): Option<nat>
  {
    if |s| == 0 || !('0' <= s[|s| - 1] <= '9') then None
    else
      var d := s[|s| - 1] as int - '0' as int;
      if |s| == 1 then Some(d)
      else match ParseDecimal(s[..|s| - 1])
        case None => None
        case Some(m) => Some(10 * m + d)
  }

  /** Reading a formatted number gives the number back. */
  lemma {:induction false} ParseDecimalOf(n: nat)
    ensures ParseDecimal(Decimal(n)) == Some(n)
  {
    if n >= 10 {
      var s := Decimal(n);
      assert s[..|s| - 1] == Decimal(n / 10);
      ParseDecimalOf(n / 10);
    }
  }
}
