/** JavaScript's `String.prototype.split` on a one-character separator, with
    its inverse `Join`: the two string operations the login handler and the
    authentication middleware rely on. */
module Strings {

  /** The position of the first `c` in `s`. */
  function IndexOf(s: string, c: char): (i: nat)
    requires c in s
    ensures i < |s| && s[i] == c
    ensures c !in s[..i]
  {
    if s[0] == c then 0
    else
      assert s == [s[0]] + s[1..];
      var j := IndexOf(s[1..], c);
      assert s[..j + 1] == [s[0]] + s[1..][..j];
      1 + j
  }

  /** `parts.join(sep)`. */
  function Join(parts: seq<string>, sep: char): string {
    if |parts| == 0 then ""
    else if |parts| == 1 then parts[0]
    else parts[0] + [sep] + Join(parts[1..], sep)
  }

  /** `s.split(sep)`: the maximal pieces between separators, so that joining
      them back gives `s`; there is always at least one piece. */
  function Split(s: string, sep: char): (parts: seq<string>)
    ensures |parts| >= 1
    ensures forall i :: 0 <= i < |parts| ==> sep !in parts[i]
    ensures Join(parts, sep) == s
    decreases |s|
  {
    if sep !in s then [s]
    else
      var i := IndexOf(s, sep);
      var rest := Split(s[i + 1..], sep);
      assert s == s[..i] + [sep] + s[i + 1..];
      [s[..i]] + rest
  }

  /** Splitting a string built from a separator-free piece, a separator and a
      rest gives the piece followed by the pieces of the rest. */
  lemma SplitCons(a: string, sep: char, b: string)
    requires sep !in a
    ensures Split(a + [sep] + b, sep) == [a] + Split(b, sep)
  {
    var s := a + [sep] + b;
    assert s[|a|] == sep;
    var i := IndexOf(s, sep);
    assert i == |a| by {
      if i < |a| {
        assert false;
      } else if i > |a| {
        assert false;
      }
    }
    assert s[..i] == a;
    assert s[i + 1..] == b;
  }

  /** Join then split is the identity on separator-free pieces. */
  lemma {:induction false} SplitJoin(parts: seq<string>, sep: char)
    requires |parts| >= 1
    requires forall i :: 0 <= i < |parts| ==> sep !in parts[i]
    ensures Split(Join(parts, sep), sep) == parts
    decreases |parts|
  {
    if |parts| == 1 {
      assert sep !in parts[0];
    } else {
      SplitJoin(parts[1..], sep);
      SplitCons(parts[0], sep, Join(parts[1..], sep));
      assert parts == [parts[0]] + parts[1..];
    }
  }

  /** The first piece is the text before the first separator, and what follows
      it is either nothing or a separator. */
  lemma SplitHead(s: string, sep: char)
    ensures var head := Split(s, sep)[0];
      && sep !in head
      && head == s[..|head|]
      && (|head| == |s| || s[|head|] == sep)
  {
    if sep in s {
      var i := IndexOf(s, sep);
      assert s == s[..i] + [sep] + s[i + 1..];
    }
  }

  /** When there are at least two pieces, the second starts right after the
      first separator and is followed by nothing or a separator. */
  lemma SplitSecond(s: string, sep: char)
    requires |Split(s, sep)| >= 2
    ensures var parts := Split(s, sep);
      && s[..|parts[0]| + 1 + |parts[1]|] == parts[0] + [sep] + parts[1]
      && (|s| == |parts[0]| + 1 + |parts[1]| || s[|parts[0]| + 1 + |parts[1]|] == sep)
  {
    var i := IndexOf(s, sep);
    var rest := s[i + 1..];
    assert s == s[..i] + [sep] + rest;
    SplitHead(rest, sep);
  }
}
