/** String primitives the parser relies on: substring containment, replace-all
    and splitting on a separator character, with the meaning of each proved
    against a position-based definition. */
module Text {

  /** `w` occurs in `s` starting at position `i`. */
  ghost predicate OccursAt(s: string, w: string, i: int)
  {
    0 <= i && i + |w| <= |s| && s[i..i + |w|] == w
  }

  /** `w` is a substring of `s` (the meaning of `w in s` on strings). */
  ghost predicate HasSubstring(s: string, w: string)
  {
    exists i :: OccursAt(s, w, i)
  }

  /** Substring test, `w in s`. */
  function Contains(s: string, w: string): bool
    decreases |s|
  {
    if |s| < |w| then false
    else s[..|w|] == w || Contains(s[1..], w)
  }

  /** An occurrence in the tail is an occurrence one position later. */
  lemma OccursInTail(s: string, w: string, i: int)
    requires |s| > 0 && OccursAt(s[1..], w, i)
    ensures OccursAt(s, w, i + 1)
  {
    assert s[1..][i..i + |w|] == s[i + 1..i + 1 + |w|];
  }

  /** An occurrence after position 0 is an occurrence in the tail. */
  lemma OccursAfterHead(s: string, w: string, i: int)
    requires |s| > 0 && i > 0 && OccursAt(s, w, i)
    ensures OccursAt(s[1..], w, i - 1)
  {
    assert s[1..][i - 1..i - 1 + |w|] == s[i..i + |w|];
  }

  lemma {:induction false} ContainsMeansSubstring(s: string, w: string)
    ensures Contains(s, w) <==> HasSubstring(s, w)
  {
    if |s| < |w| {
      assert forall i :: !OccursAt(s, w, i);
    } else if s[..|w|] == w {
      assert OccursAt(s, w, 0);
    } else {
      ContainsMeansSubstring(s[1..], w);
      if HasSubstring(s[1..], w) {
        var i :| OccursAt(s[1..], w, i);
        OccursInTail(s, w, i);
      }
      if HasSubstring(s, w) {
        var i :| OccursAt(s, w, i);
        assert i != 0;
        OccursAfterHead(s, w, i);
      }
    }
  }

  /** A word found at some position is contained. */
  lemma FoundAt(s: string, w: string, i: nat)
    requires i + |w| <= |s| && s[i..i + |w|] == w
    ensures Contains(s, w)
  {
    ContainsMeansSubstring(s, w);
    assert OccursAt(s, w, i);
  }

  /** A word with a character that never occurs in `s` is not in `s`. */
  lemma CharMissing(s: string, w: string, j: nat)
    requires j < |w| && forall i :: 0 <= i < |s| ==> s[i] != w[j]
    ensures !Contains(s, w)
  {
    ContainsMeansSubstring(s, w);
    forall i ensures !OccursAt(s, w, i) {
      if 0 <= i && i + |w| <= |s| {
        assert s[i..i + |w|][j] != w[j];
      }
    }
  }

  /** `s.replace(k, v)`: every occurrence of `k`, scanned left to right and not
      overlapping, is replaced by `v`. */
  function ReplaceAll(s: string, k: string, v: string): string
    requires |k| > 0
    decreases |s|
  {
    if |s| < |k| then s
    else if s[..|k|] == k then v + ReplaceAll(s[|k|..], k, v)
    else [s[0]] + ReplaceAll(s[1..], k, v)
  }

  /** Replacing one character by another acts position by position. */
  lemma {:induction false} ReplaceCharAt(s: string, a: char, b: char)
    ensures |ReplaceAll(s, [a], [b])| == |s|
    ensures forall i :: 0 <= i < |s| ==>
      ReplaceAll(s, [a], [b])[i] == if s[i] == a then b else s[i]
  {
    if |s| == 0 {
    } else {
      ReplaceCharAt(s[1..], a, b);
      var rest := ReplaceAll(s[1..], [a], [b]);
      if s[..1] == [a] {
        assert ReplaceAll(s, [a], [b]) == [b] + rest;
      } else {
        assert ReplaceAll(s, [a], [b]) == [s[0]] + rest;
      }
    }
  }

  /** Replacing the pair `ab` by `ac` (with `a != b`) changes exactly the
      characters `b` that directly follow an `a`. */
  lemma {:induction false} ReplacePairAt(s: string, a: char, b: char, c: char)
    requires a != b
    ensures |ReplaceAll(s, [a, b], [a, c])| == |s|
    ensures forall i :: 0 <= i < |s| ==>
      ReplaceAll(s, [a, b], [a, c])[i] == if 0 < i && s[i - 1] == a && s[i] == b then c else s[i]
  {
    var r := ReplaceAll(s, [a, b], [a, c]);
    if |s| < 2 {
    } else if s[..2] == [a, b] {
      ReplacePairAt(s[2..], a, b, c);
      var rest := ReplaceAll(s[2..], [a, b], [a, c]);
      assert r == [a, c] + rest;
      forall i | 0 <= i < |s|
        ensures r[i] == if 0 < i && s[i - 1] == a && s[i] == b then c else s[i]
      {
        if i == 0 {
        } else if i == 1 {
          assert s[1] == b && s[0] == a;
        } else {
          assert r[i] == rest[i - 2];
          assert s[2..][i - 2] == s[i];
          if i > 2 {
            assert s[2..][i - 3] == s[i - 1];
          } else {
            assert s[i - 1] == b;
          }
        }
      }
    } else {
      ReplacePairAt(s[1..], a, b, c);
      var rest := ReplaceAll(s[1..], [a, b], [a, c]);
      assert r == [s[0]] + rest;
      forall i | 0 <= i < |s|
        ensures r[i] == if 0 < i && s[i - 1] == a && s[i] == b then c else s[i]
      {
        if i == 0 {
        } else {
          assert r[i] == rest[i - 1];
          assert s[1..][i - 1] == s[i];
          if i > 1 {
            assert s[1..][i - 2] == s[i - 1];
          } else {
            assert s[..2] == [s[0], s[1]];
          }
        }
      }
    }
  }

  /** Removing every `c` from a string that ends in its only `c` drops that
      last character. */
  lemma {:induction false} RemoveLastChar(x: string, c: char)
    requires c !in x
    ensures ReplaceAll(x + [c], [c], []) == x
  {
    if |x| == 0 {
      assert ([] + [c])[..1] == [c];
    } else {
      assert (x + [c])[..1] == [x[0]];
      assert (x + [c])[1..] == x[1..] + [c];
      RemoveLastChar(x[1..], c);
      assert [x[0]] + x[1..] == x;
    }
  }

  /** `s.split(c)`: the pieces of `s` between occurrences of `c`. */
  function Split(s: string, c: char): (parts: seq<string>)
    ensures |parts| >= 1
    ensures c in s ==> |parts| >= 2
    decreases |s|
  {
    if |s| == 0 then [""]
    else
      var rest := Split(s[1..], c);
      if s[0] == c then [""] + rest
      else [[s[0]] + rest[0]] + rest[1..]
  }

  /** `c.join(parts)`. */
  function Join(parts: seq<string>, c: char): string
    requires |parts| >= 1
    decreases |parts|
  {
    if |parts| == 1 then parts[0] else parts[0] + [c] + Join(parts[1..], c)
  }

  /** Splitting loses nothing: joining the pieces gives the string back. */
  lemma {:induction false} JoinSplit(s: string, c: char)
    ensures Join(Split(s, c), c) == s
  {
    if |s| > 0 {
      var rest := Split(s[1..], c);
      JoinSplit(s[1..], c);
      assert [s[0]] + s[1..] == s;
      if s[0] == c {
        assert Split(s, c) == [""] + rest;
        assert ([""] + rest)[1..] == rest;
        assert Join(Split(s, c), c) == "" + [c] + Join(rest, c);
      } else {
        var parts := [[s[0]] + rest[0]] + rest[1..];
        assert Split(s, c) == parts;
        if |rest| == 1 {
          assert Join(parts, c) == [s[0]] + rest[0];
        } else {
          assert parts[1..] == rest[1..];
          assert Join(parts, c) == [s[0]] + rest[0] + [c] + Join(rest[1..], c);
          assert Join(rest, c) == rest[0] + [c] + Join(rest[1..], c);
        }
      }
    }
  }

  /** No piece of a split contains the separator. */
  lemma {:induction false} SplitPiecesClean(s: string, c: char)
    ensures forall j :: 0 <= j < |Split(s, c)| ==> c !in Split(s, c)[j]
  {
    if |s| > 0 {
      var rest := Split(s[1..], c);
      SplitPiecesClean(s[1..], c);
      if s[0] != c {
        var parts := [[s[0]] + rest[0]] + rest[1..];
        assert Split(s, c) == parts;
        forall j | 0 <= j < |parts| ensures c !in parts[j] {
          if j == 0 {
            assert c !in rest[0];
          } else {
            assert parts[j] == rest[j];
          }
        }
      }
    }
  }

  /** Splitting loses nothing: joining the pieces gives the string back, and no
      piece contains the separator. */
  lemma SplitJoin(s: string, c: char)
    ensures Join(Split(s, c), c) == s
    ensures forall j :: 0 <= j < |Split(s, c)| ==> c !in Split(s, c)[j]
  {
    JoinSplit(s, c);
    SplitPiecesClean(s, c);
  }
}
