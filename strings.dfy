/**
  The few `str` operations of Rust's standard library that the callback
  parser relies on, stated over `seq<char>`.
*/
module Strings {

  /** Every character is ASCII; on such text byte indices and char indices agree. */
  predicate IsAscii(s: string) {
    forall i :: 0 <= i < |s| ==> s[i] as int < 128
  }

  /** Every character fits in one byte (code points below 256). */
  predicate IsLatin1(s: string) {
    forall i :: 0 <= i < |s| ==> s[i] as int < 256
  }

  /** `s.starts_with(p)` */
  predicate StartsWith(s: string, p: string) {
    |p| <= |s| && s[..|p|] == p
  }

  /** `s.ends_with(p)` */
  predicate EndsWith(s: string, p: string) {
    |p| <= |s| && s[|s| - |p|..] == p
  }

  /** The text before the first `d`, or all of `s` when `d` does not occur. */
  function TakeUntil(s: string, d: char): (r: string)
    ensures d !in r
    ensures StartsWith(s, r)
    ensures |r| == |s| || s[|r|] == d
    ensures d !in s ==> r == s
    ensures IsAscii(s) ==> IsAscii(r)
  {
    if s == [] || s[0] == d then [] else [s[0]] + TakeUntil(s[1..], d)
  }

  /** `s.split_once(d).unwrap().1`: the text after the first `d`. */
  function AfterFirst(s: string, d: char): (r: string)
    requires d in s
    ensures s == TakeUntil(s, d) + [d] + r
    ensures IsAscii(s) ==> IsAscii(r)
  {
    if s[0] == d then s[1..] else AfterFirst(s[1..], d)
  }

  /** `s.split(d)`: the pieces between the occurrences of `d`, in order. */
  function Split(s: string, d: char): (r: seq<string>)
    ensures |r| >= 1 && r[0] == TakeUntil(s, d)
    ensures |r| >= 2 <==> d in s
    ensures forall i :: 0 <= i < |r| ==> d !in r[i]
    ensures IsAscii(s) ==> forall i :: 0 <= i < |r| ==> IsAscii(r[i])
    decreases |s|
  {
    if d in s then [TakeUntil(s, d)] + Split(AfterFirst(s, d), d) else [s]
  }

  /** The pieces put back together with `d` between neighbours. */
  function Join(parts: seq<string>, d: char): string
  {
    if |parts| == 0 then []
    else if |parts| == 1 then parts[0]
    else parts[0] + [d] + Join(parts[1..], d)
  }

  /** Cutting at the first `d`: whatever precedes it is the head, whatever follows it the rest. */
  lemma {:induction false} CutAtFirst(a: string, b: string, d: char)
    requires d !in a
    ensures d in a + [d] + b
    ensures TakeUntil(a + [d] + b, d) == a
    ensures AfterFirst(a + [d] + b, d) == b
  {
    var s := a + [d] + b;
    assert s[|a|] == d;
    var t := TakeUntil(s, d);
    assert t == a;
    var r := AfterFirst(s, d);
    assert s == a + [d] + r;
    assert r == s[|a| + 1..];
    assert b == s[|a| + 1..];
  }

  /** Splitting undoes joining, for pieces that do not contain the separator. */
  lemma {:induction false} SplitJoin(parts: seq<string>, d: char)
    requires |parts| >= 1
    requires forall i :: 0 <= i < |parts| ==> d !in parts[i]
    ensures Split(Join(parts, d), d) == parts
  {
    if |parts| > 1 {
      var rest := Join(parts[1..], d);
      CutAtFirst(parts[0], rest, d);
      SplitJoin(parts[1..], d);
    }
  }

  /** Joining undoes splitting. */
  lemma {:induction false} JoinSplit(s: string, d: char)
    ensures Join(Split(s, d), d) == s
    decreases |s|
  {
    if d in s {
      var rest := AfterFirst(s, d);
      JoinSplit(rest, d);
      assert Split(s, d) == [TakeUntil(s, d)] + Split(rest, d);
    }
  }

  /** Joining one more piece at the end adds a separator and that piece. */
  lemma {:induction false} JoinSnoc(parts: seq<string>, last: string, d: char)
    requires |parts| >= 1
    ensures Join(parts + [last], d) == Join(parts, d) + [d] + last
  {
    if |parts| == 1 {
      assert parts + [last] == [parts[0], last];
    } else {
      assert (parts + [last])[1..] == parts[1..] + [last];
      JoinSnoc(parts[1..], last, d);
    }
  }
}
