/** `split` and `list_merge` (lib.cpp). */
module Fields {

  predicate At(s: string, pattern: string, i: nat) {
    i + |pattern| <= |s| && forall k :: 0 <= k < |pattern| ==> s[i + k] == pattern[k]
  }

  /** `find`: the first occurrence from `i` on; the length if there is none. */
  function Find(s: string, pattern: string, i: nat): (r: nat)
    requires i <= |s|
    ensures i <= r <= |s| && (r < |s| ==> At(s, pattern, r))
    ensures forall k :: i <= k < r ==> !At(s, pattern, k)
    decreases |s| - i
  {
    if i == |s| || At(s, pattern, i) then i else Find(s, pattern, i + 1)
  }

  /** The non-empty pieces in front of occurrences of the pattern, from `i` on. */
  function FieldsFrom(s: string, pattern: string, i: nat): seq<string>
    requires pattern != "" && i <= |s|
    decreases |s| - i
  {
    var pos := Find(s, pattern, i);
    if pos == |s| then []
    else (if pos == i then [] else [s[i..pos]]) + FieldsFrom(s, pattern, pos + |pattern|)
  }

  function FieldsOf(str: string, pattern: string): seq<string>
    requires pattern != ""
  {
    FieldsFrom(str + pattern, pattern, 0)
  }

  /** `l` is what lies between the occurrences of the pattern in `s`, in order and without
      the empty pieces: an occurrence, or a whole piece and an occurrence, and so on until
      there is none. */
  ghost predicate Separates(s: string, pattern: string, i: nat, l: seq<string>)
    requires pattern != ""
    decreases |s| - i
  {
    if i > |s| || forall k :: i <= k < |s| ==> !At(s, pattern, k) then l == []
    else if At(s, pattern, i) then Separates(s, pattern, i + |pattern|, l)
    else
      && l != [] && l[0] != "" && At(s, l[0], i) && At(s, pattern, i + |l[0]|)
      && (forall k :: i <= k < i + |l[0]| ==> !At(s, pattern, k))
      && Separates(s, pattern, i + |l[0]| + |pattern|, l[1..])
  }

  /** There is exactly one such list. */
  lemma {:induction false} FieldsSeparate(s: string, pattern: string, i: nat, l: seq<string>)
    requires pattern != "" && i <= |s|
    ensures Separates(s, pattern, i, l) <==> l == FieldsFrom(s, pattern, i)
    decreases |s| - i
  {
    hide At, Find, Separates, FieldsFrom;
    var pos := Find(s, pattern, i);
    FieldsStep(s, pattern, i);
    SeparatesStep(s, pattern, i, l);
    FindStep(s, pattern, i);
    if pos == |s| {
    } else if pos == i {
      FieldsSeparate(s, pattern, i + |pattern|, l);
    } else if l != [] {
      FieldsSeparate(s, pattern, pos + |pattern|, l[1..]);
      assert l == [l[0]] + l[1..];
    }
  }

  lemma FindStep(s: string, pattern: string, i: nat)
    requires pattern != "" && i <= |s|
    ensures var pos := Find(s, pattern, i);
            i <= pos <= |s| && (pos < |s| ==> pos + |pattern| <= |s|)
  {
  }

  lemma FieldsStep(s: string, pattern: string, i: nat)
    requires pattern != "" && i <= |s|
    ensures var pos := Find(s, pattern, i);
            && i <= pos <= |s| && (pos < |s| ==> pos + |pattern| <= |s|)
            && FieldsFrom(s, pattern, i) ==
               if pos == |s| then []
               else (if pos == i then [] else [s[i..pos]]) + FieldsFrom(s, pattern, pos + |pattern|)
  {
    hide Find;
  }

  lemma SeparatesStep(s: string, pattern: string, i: nat, l: seq<string>)
    requires pattern != "" && i <= |s|
    ensures var pos := Find(s, pattern, i);
            && i <= pos <= |s| && (pos < |s| ==> pos + |pattern| <= |s|)
            && (Separates(s, pattern, i, l) <==>
                  if pos == |s| then l == []
                  else if pos == i then Separates(s, pattern, i + |pattern|, l)
                  else l != [] && l[0] == s[i..pos] && Separates(s, pattern, pos + |pattern|, l[1..]))
  {
    hide Find;
    var pos := Find(s, pattern, i);
    if pos < |s| && pos > i {
      assert !(forall k :: i <= k < |s| ==> !At(s, pattern, k));
      if l != [] {
        PieceIff(s, pattern, i, l[0]);
      }
    }
  }

  /** The first piece ends where the pattern is first found. */
  lemma PieceIff(s: string, pattern: string, i: nat, piece: string)
    requires pattern != "" && i <= |s| && i < Find(s, pattern, i) < |s|
    ensures piece == s[i..Find(s, pattern, i)] <==>
            && piece != "" && At(s, piece, i) && At(s, pattern, i + |piece|)
            && forall k :: i <= k < i + |piece| ==> !At(s, pattern, k)
  {
    hide Find;
    var pos := Find(s, pattern, i);
    if At(s, piece, i) && At(s, pattern, i + |piece|) && forall k :: i <= k < i + |piece| ==> !At(s, pattern, k) {
      assert pos == i + |piece|;
      assert piece == s[i..pos];
    }
  }

  method Split(str: string, pattern: string) returns (result: seq<string>)
    requires pattern != ""
    ensures Separates(str + pattern, pattern, 0, result)
  {
    hide Find, Separates, FieldsFrom, At;
    assert [] + FieldsFrom(str + pattern, pattern, 0) == FieldsFrom(str + pattern, pattern, 0);
    var s := str + pattern;
    result := [];
    var i := 0;
    while i < |s|
      invariant 0 <= i <= |s|
      invariant FieldsFrom(s, pattern, 0) == result + FieldsFrom(s, pattern, i)
    {
      var pos := Find(s, pattern, i);
      FieldStep(s, pattern, i);
      if pos < |s| {
        var piece := s[i..pos];
        ghost var rest := FieldsFrom(s, pattern, pos + |pattern|);
        assert (result + [piece]) + rest == result + ([piece] + rest);
        i := pos + |pattern| - 1;
        if piece != "" {
          result := result + [piece];
        }
      }
      i := i + 1;
    }
    NoField(s, pattern);
    FieldsSeparate(s, pattern, 0, result);
  }

  lemma FieldStep(s: string, pattern: string, i: nat)
    requires pattern != "" && i < |s|
    ensures var pos := Find(s, pattern, i);
            && i <= pos <= |s| && (pos < |s| ==> pos + |pattern| <= |s|)
            && FieldsFrom(s, pattern, i) ==
            if pos == |s| then FieldsFrom(s, pattern, i + 1)
            else (if pos == i then [] else [s[i..pos]]) + FieldsFrom(s, pattern, pos + |pattern|)
  {
  }

  lemma NoField(s: string, pattern: string)
    requires pattern != ""
    ensures FieldsFrom(s, pattern, |s|) == []
  {
  }

  function Merged(list: seq<string>, pattern: string): string {
    if list == [] then "" else list[0] + pattern + Merged(list[1..], pattern)
  }

  lemma {:induction false} MergedSnoc(list: seq<string>, item: string, pattern: string)
    ensures Merged(list + [item], pattern) == Merged(list, pattern) + item + pattern
  {
    if list == [] {
      assert [item][1..] == [];
    } else {
      assert (list + [item])[1..] == list[1..] + [item];
      MergedSnoc(list[1..], item, pattern);
    }
  }

  method ListMerge(list: seq<string>, pattern: string) returns (out: string)
    ensures out == Merged(list, pattern)
  {
    out := "";
    for i := 0 to |list|
      invariant out == Merged(list[..i], pattern)
    {
      assert list[..i + 1] == list[..i] + [list[i]];
      MergedSnoc(list[..i], list[i], pattern);
      out := out + list[i] + pattern;
    }
    assert list[..|list|] == list;
  }

  // ---------- splitting what was merged ----------

  /** A string that is split off whole: the pattern does not begin in it, not even where
      it would run on into the pattern behind it. */
  predicate Whole(x: string, pattern: string) {
    x != "" && Find(x + pattern, pattern, 0) == |x|
  }

  /** With a pattern of one character: a string without it. */
  lemma WholeOne(x: string, c: char)
    ensures Whole(x, [c]) <==> x != "" && c !in x
  {
    var s := x + [c];
    forall k | 0 <= k <= |x|
      ensures At(s, [c], k) <==> s[k] == c
    {
      assert At(s, [c], k) <==> s[k + 0] == [c][0];
    }
    if c in x {
      var k :| 0 <= k < |x| && x[k] == c;
      assert At(s, [c], k);
    } else {
      assert At(s, [c], |x|);
      assert forall k :: 0 <= k < |x| ==> !At(s, [c], k);
    }
  }

  lemma CharMoved(s: string, t: string, i: nat, n: nat)
    requires At(s, t, i) && n < |t|
    ensures i + n < |s| && s[i + n] == t[n]
  {
  }

  /** Occurrences depend only on the characters they cover. */
  lemma AtMoved(s: string, t: string, pattern: string, i: nat, k: nat)
    requires At(s, t, i) && k + |pattern| <= |t|
    ensures At(s, pattern, i + k) <==> At(t, pattern, k)
  {
    forall j | 0 <= j < |pattern|
      ensures s[i + k + j] == pattern[j] <==> t[k + j] == pattern[j]
    {
      CharMoved(s, t, i, k + j);
    }
  }

  lemma FindMoved(s: string, x: string, pattern: string, i: nat)
    requires pattern != "" && At(s, x + pattern, i)
    ensures Find(x + pattern, pattern, 0) == |x| <==> Find(s, pattern, i) == i + |x|
  {
    var t := x + pattern;
    assert At(t, pattern, |x|);
    hide Find, At;
    var p, q := Find(t, pattern, 0), Find(s, pattern, i);
    AtMoved(s, t, pattern, i, |x|);
    assert p <= |x| && q <= i + |x|;
    AtMoved(s, t, pattern, i, p);
    AtMoved(s, t, pattern, i, q - i);
    Fits(s, t, i);
  }

  lemma Fits(s: string, t: string, i: nat)
    requires At(s, t, i)
    ensures i + |t| <= |s|
  {
  }

  /** Splitting undoes merging exactly on lists of strings that are split off whole. */
  lemma {:induction false} SplitOfMerged(list: seq<string>, pattern: string)
    requires pattern != ""
    ensures FieldsOf(Merged(list, pattern), pattern) == list <==> forall x | x in list :: Whole(x, pattern)
  {
    hide Whole, FieldsFrom, Merged;
    if forall x | x in list :: Whole(x, pattern) {
      MergedFields("", list, pattern);
      assert "" + Merged(list, pattern) + pattern == Merged(list, pattern) + pattern;
    }
    if FieldsOf(Merged(list, pattern), pattern) == list {
      FieldsWhole(Merged(list, pattern) + pattern, pattern, 0);
    }
  }

  lemma {:induction false} MergedFields(front: string, list: seq<string>, pattern: string)
    requires pattern != "" && forall x | x in list :: Whole(x, pattern)
    ensures FieldsFrom(front + Merged(list, pattern) + pattern, pattern, |front|) == list
    decreases |list|
  {
    hide Whole, FieldsFrom;
    var s := front + Merged(list, pattern) + pattern;
    if list == [] {
      LastPattern(s, pattern, |front|);
    } else {
      var x, rest := list[0], Merged(list[1..], pattern);
      assert forall y | y in list[1..] :: y in list;
      MergedFields(front + x + pattern, list[1..], pattern);
      assert s == (front + x + pattern) + rest + pattern;
      assert At(s, x + pattern, |front|);
      assert Whole(x, pattern);
      FirstField(s, x, pattern, |front|);
      assert list == [x] + list[1..];
    }
  }

  lemma FirstField(s: string, x: string, pattern: string, i: nat)
    requires pattern != "" && At(s, x + pattern, i) && Whole(x, pattern)
    ensures i + |x| + |pattern| <= |s|
    ensures FieldsFrom(s, pattern, i) == [x] + FieldsFrom(s, pattern, i + |x| + |pattern|)
  {
    hide Find;
    FindMoved(s, x, pattern, i);
    Covered(s, x, pattern, i);
  }

  lemma Covered(s: string, x: string, y: string, i: nat)
    requires At(s, x + y, i)
    ensures s[i..i + |x|] == x
  {
    forall k | 0 <= k < |x|
      ensures s[i..i + |x|][k] == x[k]
    {
      CharMoved(s, x + y, i, k);
    }
  }

  lemma LastPattern(s: string, pattern: string, i: nat)
    requires pattern != "" && i + |pattern| == |s| && s[i..] == pattern
    ensures FieldsFrom(s, pattern, i) == []
  {
    assert At(s, pattern, i);
    NoField(s, pattern);
  }

  lemma {:induction false} FieldsWhole(s: string, pattern: string, i: nat)
    requires pattern != "" && i <= |s|
    ensures forall x | x in FieldsFrom(s, pattern, i) :: Whole(x, pattern)
    decreases |s| - i
  {
    hide Find;
    var pos := Find(s, pattern, i);
    if pos < |s| {
      FieldsWhole(s, pattern, pos + |pattern|);
      if i < pos {
        var x := s[i..pos];
        assert s[i..pos + |pattern|] == x + pattern;
        FindMoved(s, x, pattern, i);
      }
    }
  }
}
