/**
 The three JavaScript built-ins that the selector transform chains
 together, restricted to the way it calls them: `String.prototype.substring`
 with one argument, `String.prototype.split` with a one-character separator,
 and `Array.prototype.join`.
 */
module JsString {

  /** `s.substring(start)`: the suffix of `s` that begins at `start`, after
      `start` has been clamped to the range 0..|s|. */
  function Substring(s: string, start: int): (r: string)
    ensures |r| == if start <= 0 then |s| else if start >= |s| then 0 else |s| - start
    ensures s == s[..|s| - |r|] + r
  {
    if start <= 0 then s else if start >= |s| then "" else s[start..]
  }

  /** `s.split(sep)` for a one-character separator: the pieces between the
      occurrences of `sep`, in order, empty pieces included. The empty string
      splits into a single empty piece. */
  function Split(s: string, sep: char): (r: seq<string>)
    ensures |r| >= 1
    ensures forall i :: 0 <= i < |r| ==> sep !in r[i]
    decreases |s|
  {
    if |s| == 0 then [""]
    else
      var rest := Split(s[1..], sep);
      if s[0] == sep then [""] + rest
      else [[s[0]] + rest[0]] + rest[1..]
  }

  /** Total number of characters in a list of strings. */
  function TotalLength(parts: seq<string>): (n: nat)
  {
    if |parts| == 0 then 0 else |parts[0]| + TotalLength(parts[1..])
  }

  /** `parts.join(glue)`: the pieces in order with `glue` between neighbours;
      an empty list joins to the empty string. */
  function Join(parts: seq<string>, glue: string): (r: string)
    ensures |parts| == 0 ==> r == ""
    ensures |parts| > 0 ==> |r| == TotalLength(parts) + (|parts| - 1) * |glue|
  {
    if |parts| == 0 then ""
    else if |parts| == 1 then parts[0]
    else parts[0] + glue + Join(parts[1..], glue)
  }

  /** Splitting yields one piece more than there are separators. */
  lemma {:induction false} SplitLength(s: string, sep: char)
    ensures |Split(s, sep)| == multiset(s)[sep] + 1
    decreases |s|
  {
    if |s| > 0 {
      SplitLength(s[1..], sep);
      assert s == [s[0]] + s[1..];
      assert multiset(s) == multiset([s[0]]) + multiset(s[1..]);
    }
  }

  /** Prepending a character to the first piece prepends it to the join. */
  lemma JoinConsHead(c: char, ps: seq<string>, glue: string)
    requires |ps| >= 1
    ensures Join([[c] + ps[0]] + ps[1..], glue) == [c] + Join(ps, glue)
  {
    var q := [[c] + ps[0]] + ps[1..];
    if |ps| > 1 {
      assert q[1..] == ps[1..];
    }
  }

  /** Prepending an empty piece to a non-empty list prepends the glue. */
  lemma JoinConsEmpty(ps: seq<string>, glue: string)
    requires |ps| >= 1
    ensures Join([""] + ps, glue) == glue + Join(ps, glue)
  {
    assert ([""] + ps)[1..] == ps;
  }

  /** Joining the pieces back with the separator restores the string:
      `s.split(sep).join(sep) === s`. */
  lemma {:induction false} JoinSplitRoundTrip(s: string, sep: char)
    ensures Join(Split(s, sep), [sep]) == s
    decreases |s|
  {
    if |s| > 0 {
      var rest := Split(s[1..], sep);
      JoinSplitRoundTrip(s[1..], sep);
      if s[0] == sep {
        JoinConsEmpty(rest, [sep]);
      } else {
        JoinConsHead(s[0], rest, [sep]);
      }
      assert s == [s[0]] + s[1..];
    }
  }
}
