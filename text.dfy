/**
 * The pieces of Rust's string library that the text formats of the index
 * rely on: `str::split` on a character, `str::replace(c, "")`, the decimal
 * `to_string` of an unsigned integer and `str::parse::<uN>`.
 */
module Text {
  import opened Params

  /** `parts` glued back together with `d` between consecutive parts. */
  function Join(parts: seq<string>, d: char): string
    requires |parts| >= 1
  {
    if |parts| == 1 then parts[0] else parts[0] + [d] + Join(parts[1..], d)
  }

  /** Every part followed by `d`, concatenated: what collecting `part + d` over the parts builds. */
  function Terminated(parts: seq<string>, d: char): string
  {
    if |parts| == 0 then "" else parts[0] + [d] + Terminated(parts[1..], d)
  }

  lemma {:induction false} TerminatedJoin(parts: seq<string>, d: char)
    requires |parts| >= 1
    ensures Terminated(parts, d) == Join(parts, d) + [d]
    decreases |parts|
  {
    if |parts| > 1 {
      TerminatedJoin(parts[1..], d);
    }
  }

  /**
   * `s.split(d)`: the maximal `d`-free pieces of `s`, in order; there is always
   * at least one piece, and joining them with `d` gives `s` back.
   */
  function Split(s: string, d: char): (parts: seq<string>)
    ensures |parts| >= 1
    ensures forall p :: p in parts ==> d !in p
    ensures Join(parts, d) == s
    decreases |s|
  {
    if |s| == 0 then [""]
    else
      var rest := Split(s[1..], d);
      if s[0] == d then
        assert s == [d] + s[1..];
        [""] + rest
      else
        var parts := [[s[0]] + rest[0]] + rest[1..];
        assert parts[1..] == rest[1..];
        assert |rest| > 1 ==> Join(rest, d) == rest[0] + [d] + Join(rest[1..], d);
        assert s == [s[0]] + s[1..];
        parts
  }

  lemma {:induction false} SplitNoDelimiter(p: string, d: char)
    requires d !in p
    ensures Split(p, d) == [p]
    decreases |p|
  {
    if |p| > 0 {
      SplitNoDelimiter(p[1..], d);
      assert [p[0]] + p[1..] == p;
    }
  }

  lemma {:induction false} SplitPrefix(p: string, d: char, rest: string)
    requires d !in p
    ensures Split(p + [d] + rest, d) == [p] + Split(rest, d)
    decreases |p|
  {
    var s := p + [d] + rest;
    if |p| == 0 {
      assert s[0] == d && s[1..] == rest;
    } else {
      assert s[1..] == p[1..] + [d] + rest;
      SplitPrefix(p[1..], d, rest);
      assert [p[0]] + p[1..] == p;
    }
  }

  /** Splitting undoes joining, as long as no part contains the delimiter. */
  lemma {:induction false} SplitJoin(parts: seq<string>, d: char)
    requires |parts| >= 1
    requires forall p :: p in parts ==> d !in p
    ensures Split(Join(parts, d), d) == parts
    decreases |parts|
  {
    if |parts| == 1 {
      SplitNoDelimiter(parts[0], d);
    } else {
      SplitJoin(parts[1..], d);
      SplitPrefix(parts[0], d, Join(parts[1..], d));
      assert [parts[0]] + parts[1..] == parts;
    }
  }

  /** `s.replace(c, "")`: `s` with every `c` deleted. */
  function RemoveAll(s: string, c: char): (r: string)
    ensures c !in r
    ensures |r| <= |s|
  {
    if |s| == 0 then ""
    else if s[0] == c then RemoveAll(s[1..], c)
    else [s[0]] + RemoveAll(s[1..], c)
  }

  lemma {:induction false} RemoveAllAppend(a: string, b: string, c: char)
    ensures RemoveAll(a + b, c) == RemoveAll(a, c) + RemoveAll(b, c)
    decreases |a|
  {
    if |a| > 0 {
      assert (a + b)[1..] == a[1..] + b;
      RemoveAllAppend(a[1..], b, c);
    } else {
      assert a + b == b;
    }
  }

  lemma {:induction false} RemoveAllAbsent(s: string, c: char)
    requires c !in s
    ensures RemoveAll(s, c) == s
    decreases |s|
  {
    if |s| > 0 {
      RemoveAllAbsent(s[1..], c);
      assert [s[0]] + s[1..] == s;
    }
  }

  lemma {:induction false} RemoveAllOnly(s: string, c: char)
    requires forall i :: 0 <= i < |s| ==> s[i] == c
    ensures RemoveAll(s, c) == ""
    decreases |s|
  {
    if |s| > 0 {
      RemoveAllOnly(s[1..], c);
    }
  }

  predicate IsDigit(ch: char)
  {
    '0' <= ch <= '9'
  }

  function DigitChar(n: nat): (ch: char)
    requires n < 10
    ensures IsDigit(ch)
  {
    ['0', '1', '2', '3', '4', '5', '6', '7', '8', '9'][n]
  }

  function DigitValue(ch: char): nat
    requires IsDigit(ch)
  {
    (ch as int - '0' as int) as nat
  }

  lemma DigitRoundTrip(n: nat)
    requires n < 10
    ensures DigitValue(DigitChar(n)) == n
  {
  }

  /** The value of a string of decimal digits, most significant first. */
  function DigitsValue(s: string): nat
    requires forall i :: 0 <= i < |s| ==> IsDigit(s[i])
  {
    if |s| == 0 then 0 else DigitsValue(s[..|s| - 1]) * 10 + DigitValue(s[|s| - 1])
  }

  /** `n.to_string()` for an unsigned integer: decimal, no sign, no leading zero. */
  function NatToString(n: nat): (s: string)
    ensures |s| >= 1
    ensures forall i :: 0 <= i < |s| ==> IsDigit(s[i])
  {
    if n < 10 then [DigitChar(n)] else NatToString(n / 10) + [DigitChar(n % 10)]
  }

  /**
   * `s.parse::<uN>()` where `max` is the type's largest value: an optional
   * leading `+`, then at least one decimal digit and nothing else, and a value
   * that fits; anything else is an error.
   */
  function ParseUnsigned(s: string, max: nat): (r: Option<nat>)
    ensures r.Some? ==> r.value <= max
  {
    var digits := if |s| > 0 && s[0] == '+' then s[1..] else s;
    if |digits| == 0 || exists i :: 0 <= i < |digits| && !IsDigit(digits[i]) then None
    else if DigitsValue(digits) <= max then Some(DigitsValue(digits))
    else None
  }

  lemma {:induction false} DigitsOfNatToString(n: nat)
    ensures DigitsValue(NatToString(n)) == n
  {
    var s := NatToString(n);
    if n < 10 {
      DigitRoundTrip(n);
    } else {
      DigitsOfNatToString(n / 10);
      assert s[..|s| - 1] == NatToString(n / 10);
      DigitRoundTrip(n % 10);
    }
  }

  /** Printing an unsigned integer and parsing it back gives the integer. */
  lemma NatToStringParses(n: nat, max: nat)
    requires n <= max
    ensures ParseUnsigned(NatToString(n), max) == Some(n)
  {
    DigitsOfNatToString(n);
  }

  /** A printed integer holds no character other than digits. */
  lemma NatToStringHasOnlyDigits(n: nat, c: char)
    requires !IsDigit(c)
    ensures c !in NatToString(n)
  {
  }

  /** The decimal texts of `xs`, one per number. */
  function NumberTexts(xs: seq<nat>): (r: seq<string>)
    ensures |r| == |xs|
  {
    seq(|xs|, i requires 0 <= i < |xs| => NatToString(xs[i]))
  }

  /** The numbers of `xs` printed with `", "` between them, as Rust's `{:?}` lists them. */
  function DebugItems(xs: seq<nat>): string
    requires |xs| >= 1
  {
    if |xs| == 1 then NatToString(xs[0]) else NatToString(xs[0]) + ", " + DebugItems(xs[1..])
  }

  /** `format!("{:?}", xs)` for a non-empty list of unsigned integers. */
  function DebugList(xs: seq<nat>): string
    requires |xs| >= 1
  {
    "[" + DebugItems(xs) + "]"
  }

  /** Deleting the spaces of a printed list leaves the numbers joined by bare commas. */
  lemma {:induction false} DebugItemsWithoutSpaces(xs: seq<nat>)
    requires |xs| >= 1
    ensures RemoveAll(DebugItems(xs), ' ') == Join(NumberTexts(xs), ',')
    decreases |xs|
  {
    var head := NatToString(xs[0]);
    NatToStringHasOnlyDigits(xs[0], ' ');
    RemoveAllAbsent(head, ' ');
    if |xs| > 1 {
      DebugItemsWithoutSpaces(xs[1..]);
      RemoveAllAppend(head + ", ", DebugItems(xs[1..]), ' ');
      RemoveAllAppend(head, ", ", ' ');
      assert RemoveAll(", ", ' ') == ",";
      assert NumberTexts(xs)[1..] == NumberTexts(xs[1..]);
    }
  }

  /** Deleting the spaces of a printed list, and of any spaces before it, leaves `[x0,x1,...]`. */
  lemma DebugListWithoutSpaces(xs: seq<nat>, pad: string)
    requires |xs| >= 1
    requires forall i :: 0 <= i < |pad| ==> pad[i] == ' '
    ensures RemoveAll(pad + DebugList(xs), ' ') == "[" + Join(NumberTexts(xs), ',') + "]"
  {
    DebugItemsWithoutSpaces(xs);
    RemoveAllBracketed(pad, DebugItems(xs), DebugList(xs));
  }

  /** Deleting the spaces of `pad` followed by `[items]`, where `pad` holds only spaces. */
  lemma RemoveAllBracketed(pad: string, items: string, list: string)
    requires forall i :: 0 <= i < |pad| ==> pad[i] == ' '
    requires list == "[" + items + "]"
    ensures RemoveAll(pad + list, ' ') == "[" + RemoveAll(items, ' ') + "]"
  {
    RemoveAllOnly(pad, ' ');
    RemoveAllAppend(pad, list, ' ');
    RemoveAllAppend("[" + items, "]", ' ');
    RemoveAllAppend("[", items, ' ');
  }
}
