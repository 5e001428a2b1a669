/**
 * The string operations the scanner relies on, with ASCII semantics:
 * `str.lower`, the substring test `p in s`, `str.find`, `str.split("\n")`
 * and its inverse `"\n".join`.
 */
module Strings {

  function LowerChar(c: char): char {
    if 'A' <= c <= 'Z' then ((c as int) + 32) as char else c
  }

  /** `s.lower()`: a character-by-character map, so it keeps the length. */
  function Lower(s: string): (r: string)
    ensures |r| == |s|
    ensures forall i :: 0 <= i < |s| ==> r[i] == LowerChar(s[i])
    decreases |s|
  {
    if s == [] then [] else [LowerChar(s[0])] + Lower(s[1..])
  }

  /** Lowering a slice is slicing the lowered string. */
  lemma LowerSlice(s: string, lo: nat, hi: nat)
    requires lo <= hi <= |s|
    ensures Lower(s[lo..hi]) == Lower(s)[lo..hi]
  {
  }

  /** `p` occurs in `s` starting at index `i`. */
  predicate OccursAt(s: string, p: string, i: int) {
    0 <= i && i + |p| <= |s| && s[i..i + |p|] == p
  }

  /** Python's `p in s`. */
  predicate Contains(s: string, p: string) {
    exists i :: 0 <= i <= |s| - |p| && OccursAt(s, p, i)
  }

  /** First occurrence of `p` in `s` at or after `from`, or -1. */
  function FindFrom(s: string, p: string, from: nat): (r: int)
    requires from <= |s|
    ensures r == -1 || (from <= r && OccursAt(s, p, r))
    ensures r == -1 ==> forall j :: from <= j ==> !OccursAt(s, p, j)
    ensures r != -1 ==> forall j :: from <= j < r ==> !OccursAt(s, p, j)
    decreases |s| - from
  {
    if from + |p| > |s| then -1
    else if s[from..from + |p|] == p then from
    else FindFrom(s, p, from + 1)
  }

  /** `s.find(p)`: the first index of `p` in `s`, or -1 when it is absent. */
  function Find(s: string, p: string): (r: int)
    ensures r >= 0 <==> Contains(s, p)
    ensures r >= 0 ==> OccursAt(s, p, r) && forall j :: 0 <= j < r ==> !OccursAt(s, p, j)
    ensures !Contains(s, p) ==> r == -1
  {
    FindFrom(s, p, 0)
  }

  function Min(a: int, b: int): int {
    if a < b then a else b
  }

  /**
   * Python's `s[lo:hi]` for non-negative bounds: both ends are clamped to
   * the length, and crossed bounds give the empty string.
   */
  function Slice(s: string, lo: nat, hi: nat): (r: string)
    ensures lo <= hi && lo <= |s| ==> r == s[lo..Min(hi, |s|)]
    ensures hi < lo || |s| <= lo ==> r == ""
  {
    var a := Min(lo, |s|);
    var b := Min(hi, |s|);
    if a <= b then s[a..b] else ""
  }

  /** `s.split("\n")`: never empty, and no piece holds a line break. */
  function Split(s: string): (lines: seq<string>)
    ensures |lines| >= 1
    ensures forall k :: 0 <= k < |lines| ==> '\n' !in lines[k]
    decreases |s|
  {
    if s == [] then [""]
    else if s[0] == '\n' then [""] + Split(s[1..])
    else
      var rest := Split(s[1..]);
      [[s[0]] + rest[0]] + rest[1..]
  }

  /** `"\n".join(lines)`. */
  function Join(lines: seq<string>): string
    requires |lines| >= 1
    decreases |lines|
  {
    if |lines| == 1 then lines[0] else lines[0] + "\n" + Join(lines[1..])
  }

  /** Joining the pieces of a split gives back the text. */
  lemma {:induction false} JoinSplit(s: string)
    ensures Join(Split(s)) == s
    decreases |s|
  {
    if s == [] {
    } else if s[0] == '\n' {
      JoinSplit(s[1..]);
      assert Split(s)[1..] == Split(s[1..]);
    } else {
      var rest := Split(s[1..]);
      JoinSplit(s[1..]);
      if |rest| == 1 {
        assert Split(s) == [[s[0]] + rest[0]];
      } else {
        assert Split(s)[1..] == rest[1..];
        assert Join(rest) == rest[0] + "\n" + Join(rest[1..]);
      }
      assert s == [s[0]] + s[1..];
    }
  }

  /** Splitting a join of break-free lines gives back the lines. */
  lemma {:induction false} SplitJoin(lines: seq<string>)
    requires |lines| >= 1
    requires forall k :: 0 <= k < |lines| ==> '\n' !in lines[k]
    ensures Split(Join(lines)) == lines
    decreases |lines|, |lines[0]|
  {
    var first := lines[0];
    if first == [] {
      if |lines| > 1 {
        SplitJoin(lines[1..]);
        assert Join(lines) == "\n" + Join(lines[1..]);
        assert ("\n" + Join(lines[1..]))[1..] == Join(lines[1..]);
      }
    } else {
      var shorter := [first[1..]] + lines[1..];
      assert forall k :: 0 <= k < |shorter| ==> '\n' !in shorter[k] by {
        forall k | 0 <= k < |shorter| ensures '\n' !in shorter[k] {
          if k == 0 {
            assert forall c :: c in first[1..] ==> c in first;
          } else {
            assert shorter[k] == lines[k];
          }
        }
      }
      SplitJoin(shorter);
      var j := Join(lines);
      assert j == [first[0]] + Join(shorter) by {
        if |lines| > 1 {
          assert shorter[1..] == lines[1..];
        }
      }
      assert first[0] != '\n' by {
        assert first[0] in first;
      }
      assert j[1..] == Join(shorter);
      assert [first[0]] + first[1..] == first;
    }
  }
}
