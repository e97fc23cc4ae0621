/** The character normaliser `_normalize_text`: a fixed table of
    traditional-to-simplified substitutions applied in order with replace-all. */
module Normalizer {
  import opened Text

  /** The substitution table, in insertion order. Some entries map a character
      to itself. */
  const Mapping: seq<(string, string)> := [
    ("兩", "两"), ("會", "会"), ("幫", "帮"), ("點", "点"), ("回憶", "回忆"),
    ("今", "今"), ("明", "明"), ("後", "后"), ("钟", "钟"), ("鐘", "钟")
  ]

  /** Every key of a table is non-empty, so replace-all is well defined. */
  predicate KeysNonEmpty(m: seq<(string, string)>)
  {
    forall j :: 0 <= j < |m| ==> |m[j].0| > 0
  }

  /** Applies the entries of `m` one after the other, each with replace-all. */
  function ApplyMapping(s: string, m: seq<(string, string)>): string
    requires KeysNonEmpty(m)
    decreases |m|
  {
    if |m| == 0 then s else ApplyMapping(ReplaceAll(s, m[0].0, m[0].1), m[1..])
  }

  /** The normalised text: the whole table applied to `s`. */
  function Normalize(s: string): string
  {
    ApplyMapping(s, Mapping)
  }

  /** `_normalize_text`: loops over the table and reassigns the text after each
      replacement. */
  method NormalizeText(text: string) returns (r: string)
    ensures r == Normalize(text)
    ensures |r| == |text|
    ensures forall i :: 0 <= i < |text| ==> r[i] == CanonicalAt(text, i)
  {
    r := text;
    var i := 0;
    while i < |Mapping|
      invariant 0 <= i <= |Mapping|
      invariant ApplyMapping(r, Mapping[i..]) == Normalize(text)
    {
      var (k, v) := Mapping[i];
      assert Mapping[i..][1..] == Mapping[i + 1..];
      r := ReplaceAll(r, k, v);
      i := i + 1;
    }
    NormalizeClosedForm(text);
  }

  /** The simplified form of a single traditional character; every other
      character stands for itself. */
  function CanonicalChar(c: char): char
  {
    match c
    case '兩' => '两'
    case '會' => '会'
    case '幫' => '帮'
    case '點' => '点'
    case '後' => '后'
    case '鐘' => '钟'
    case _ => c
  }

  /** What the normaliser puts at position `i`: `憶` becomes `忆` only right
      after `回`; each other character is canonicalised on its own. */
  function CanonicalAt(s: string, i: nat): char
    requires i < |s|
  {
    if s[i] == '憶' && 0 < i && s[i - 1] == '回' then '忆' else CanonicalChar(s[i])
  }

  /** Applying `a` and then `b` is applying `a + b`. */
  lemma {:induction false} ApplyMappingAppend(s: string, a: seq<(string, string)>, b: seq<(string, string)>)
    requires KeysNonEmpty(a) && KeysNonEmpty(b)
    ensures KeysNonEmpty(a + b)
    ensures ApplyMapping(s, a + b) == ApplyMapping(ApplyMapping(s, a), b)
    decreases |a|
  {
    assert forall j :: 0 <= j < |a + b| ==> (a + b)[j] == if j < |a| then a[j] else b[j - |a|];
    if |a| > 0 {
      assert (a + b)[1..] == a[1..] + b;
      ApplyMappingAppend(ReplaceAll(s, a[0].0, a[0].1), a[1..], b);
    } else {
      assert a + b == b;
    }
  }

  /** Every entry maps one character to one character. */
  predicate CharEntries(m: seq<(string, string)>)
  {
    forall j :: 0 <= j < |m| ==> |m[j].0| == 1 && |m[j].1| == 1
  }

  /** What a run of one-character entries does to a single character. */
  function MapChar(c: char, m: seq<(string, string)>): char
    requires CharEntries(m)
    decreases |m|
  {
    if |m| == 0 then c else MapChar(if c == m[0].0[0] then m[0].1[0] else c, m[1..])
  }

  /** A run of one-character entries rewrites each position on its own. */
  lemma {:induction false} ApplyCharEntries(s: string, m: seq<(string, string)>)
    requires CharEntries(m)
    ensures KeysNonEmpty(m)
    ensures |ApplyMapping(s, m)| == |s|
    ensures forall i :: 0 <= i < |s| ==> ApplyMapping(s, m)[i] == MapChar(s[i], m)
    decreases |m|
  {
    if |m| > 0 {
      var k, v := m[0].0, m[0].1;
      assert k == [k[0]] && v == [v[0]];
      ReplaceCharAt(s, k[0], v[0]);
      var t := ReplaceAll(s, k, v);
      ApplyCharEntries(t, m[1..]);
    }
  }

  /** The first four entries of the table, on one character. */
  lemma EarlyEntries(c: char)
    ensures CharEntries(Mapping[..4])
    ensures MapChar(c, Mapping[..4]) ==
      if c == '兩' then '两' else if c == '會' then '会' else if c == '幫' then '帮'
      else if c == '點' then '点' else c
  {
    var m := Mapping[..4];
    assert m == [("兩", "两"), ("會", "会"), ("幫", "帮"), ("點", "点")];
    var c1 := if c == '兩' then '两' else c;
    var c2 := if c1 == '會' then '会' else c1;
    var c3 := if c2 == '幫' then '帮' else c2;
    var c4 := if c3 == '點' then '点' else c3;
    assert MapChar(c, m) == MapChar(c1, m[1..]);
    assert MapChar(c1, m[1..]) == MapChar(c2, m[2..]);
    assert MapChar(c2, m[2..]) == MapChar(c3, m[3..]);
    assert MapChar(c3, m[3..]) == MapChar(c4, m[4..]);
  }

  /** The last five entries of the table, on one character. */
  lemma LateEntries(c: char)
    ensures CharEntries(Mapping[5..])
    ensures MapChar(c, Mapping[5..]) == if c == '後' then '后' else if c == '鐘' then '钟' else c
  {
    var m := Mapping[5..];
    assert m == [("今", "今"), ("明", "明"), ("後", "后"), ("钟", "钟"), ("鐘", "钟")];
    var c3 := if c == '後' then '后' else c;
    var c5 := if c3 == '鐘' then '钟' else c3;
    assert MapChar(c, m) == MapChar(c, m[1..]);
    assert MapChar(c, m[1..]) == MapChar(c, m[2..]);
    assert MapChar(c, m[2..]) == MapChar(c3, m[3..]);
    assert MapChar(c3, m[3..]) == MapChar(c3, m[4..]);
    assert MapChar(c3, m[4..]) == MapChar(c5, m[5..]);
  }

  /** A table applied as its first `n` entries, entry `n`, and the rest. */
  lemma {:induction false} ApplyAroundEntry(s: string, m: seq<(string, string)>, n: nat)
    requires n < |m| && KeysNonEmpty(m)
    ensures KeysNonEmpty(m[..n]) && KeysNonEmpty(m[n + 1..])
    ensures ApplyMapping(s, m) ==
      ApplyMapping(ReplaceAll(ApplyMapping(s, m[..n]), m[n].0, m[n].1), m[n + 1..])
  {
    var early, pair, late := m[..n], [m[n]], m[n + 1..];
    assert m == early + pair + late;
    assert KeysNonEmpty(pair);
    ApplyMappingAppend(s, early + pair, late);
    ApplyMappingAppend(s, early, pair);
    assert pair[1..] == [];
  }

  /** The table split into its first four entries, the one two-character
      entry, and the last five. */
  lemma NormalizeInThreeSteps(s: string)
    ensures CharEntries(Mapping[..4]) && CharEntries(Mapping[5..])
    ensures Normalize(s) ==
      ApplyMapping(ReplaceAll(ApplyMapping(s, Mapping[..4]), "回憶", "回忆"), Mapping[5..])
  {
    EarlyEntries('回');
    LateEntries('回');
    ApplyAroundEntry(s, Mapping, 4);
  }

  /** What the entry for `回憶` leaves at position `i`. */
  function PairStepAt(u: string, i: nat): char
    requires i < |u|
  {
    if 0 < i && u[i - 1] == '回' && u[i] == '憶' then '忆' else u[i]
  }

  /** The entry for `回憶`, position by position. */
  lemma PairStep(u: string)
    ensures |ReplaceAll(u, "回憶", "回忆")| == |u|
    ensures forall i :: 0 <= i < |u| ==> ReplaceAll(u, "回憶", "回忆")[i] == PairStepAt(u, i)
  {
    ReplacePairAt(u, '回', '憶', '忆');
    assert "回憶" == ['回', '憶'] && "回忆" == ['回', '忆'];
  }

  /** One position of the closed form, given what each of the three steps
      does there. */
  lemma ClosedFormAt(s: string, u: string, w: string, r: string, i: nat)
    requires i < |s| == |u| == |w| == |r|
    requires u[i] == MapChar(s[i], Mapping[..4])
    requires 0 < i ==> u[i - 1] == MapChar(s[i - 1], Mapping[..4])
    requires w[i] == PairStepAt(u, i)
    requires r[i] == MapChar(w[i], Mapping[5..])
    ensures r[i] == CanonicalAt(s, i)
  {
    EarlyEntries(s[i]);
    LateEntries(w[i]);
    if 0 < i {
      EarlyEntries(s[i - 1]);
      assert u[i - 1] == '回' <==> s[i - 1] == '回';
    }
    assert u[i] == '憶' <==> s[i] == '憶';
  }

  /** The three steps composed, position by position. */
  lemma ComposeSteps(s: string, u: string, w: string, r: string)
    requires |u| == |s| && forall i :: 0 <= i < |s| ==> u[i] == MapChar(s[i], Mapping[..4])
    requires |w| == |u| && forall i :: 0 <= i < |u| ==> w[i] == PairStepAt(u, i)
    requires |r| == |w| && forall i :: 0 <= i < |w| ==> r[i] == MapChar(w[i], Mapping[5..])
    ensures |r| == |s| && forall i :: 0 <= i < |s| ==> r[i] == CanonicalAt(s, i)
  {
    forall i | 0 <= i < |s| ensures r[i] == CanonicalAt(s, i) {
      ClosedFormAt(s, u, w, r, i);
    }
  }

  /** Applying the table in order is the same as rewriting each position
      according to CanonicalAt. */
  lemma NormalizeClosedForm(s: string)
    ensures |Normalize(s)| == |s|
    ensures forall i :: 0 <= i < |s| ==> Normalize(s)[i] == CanonicalAt(s, i)
  {
    NormalizeInThreeSteps(s);
    var early, late := Mapping[..4], Mapping[5..];
    var u := ApplyMapping(s, early);
    ApplyCharEntries(s, early);
    var w := ReplaceAll(u, ['回', '憶'], ['回', '忆']);
    PairStep(u);
    ApplyCharEntries(w, late);
    ComposeSteps(s, u, w, ApplyMapping(w, late));
  }

  /** `_normalize_text` keeps the length of the text: every key and its value
      have the same length. */
  lemma NormalizePreservesLength(s: string)
    ensures |Normalize(s)| == |s|
  {
    NormalizeClosedForm(s);
  }

  /** A character that occurs in no key of the table is its own canonical form
      and is not the second half of `回憶`. */
  lemma OutsideKeys(c: char)
    requires forall j :: 0 <= j < |Mapping| ==> c !in Mapping[j].0
    ensures CanonicalChar(c) == c && c != '憶'
  {
    assert c !in Mapping[0].0 && c !in Mapping[1].0 && c !in Mapping[2].0;
    assert c !in Mapping[3].0 && c !in Mapping[4].0 && c !in Mapping[7].0;
    assert c !in Mapping[9].0;
  }

  /** A character that occurs in no key of the table is left where it is. */
  lemma NormalizeKeepsOtherChars(s: string, i: nat)
    requires i < |s|
    requires forall j :: 0 <= j < |Mapping| ==> s[i] !in Mapping[j].0
    ensures |Normalize(s)| == |s| && Normalize(s)[i] == s[i]
  {
    NormalizeClosedForm(s);
    OutsideKeys(s[i]);
  }

  /** Normalising twice is the same as normalising once. */
  lemma NormalizeIdempotent(s: string)
    ensures Normalize(Normalize(s)) == Normalize(s)
  {
    var t := Normalize(s);
    NormalizeClosedForm(s);
    NormalizeClosedForm(t);
    CanonicalStable(s, t);
    assert Normalize(t) == t;
  }

  /** The closed form never produces a character that it would rewrite again. */
  lemma CanonicalStable(s: string, t: string)
    requires |t| == |s|
    requires forall i :: 0 <= i < |s| ==> t[i] == CanonicalAt(s, i)
    ensures forall i :: 0 <= i < |t| ==> CanonicalAt(t, i) == t[i]
  {
    forall i | 0 <= i < |t| ensures CanonicalAt(t, i) == t[i] {
      assert t[i] == CanonicalAt(s, i);
      if 0 < i {
        assert t[i - 1] == CanonicalAt(s, i - 1);
        assert t[i - 1] == '回' <==> s[i - 1] == '回';
      }
    }
  }

  /** A character the table never rewrites. */
  lemma SimplifiedChar(c: char)
    requires c !in "兩會幫點憶後鐘"
    ensures CanonicalChar(c) == c && c != '憶'
  {
  }

  /** A text without any character the table rewrites is left as it is. */
  lemma NormalizeFixesSimplified(s: string)
    requires forall i :: 0 <= i < |s| ==> s[i] !in "兩會幫點憶後鐘"
    ensures Normalize(s) == s
  {
    NormalizeClosedForm(s);
    var r := Normalize(s);
    forall i | 0 <= i < |s| ensures r[i] == s[i] {
      SimplifiedChar(s[i]);
    }
  }
}
