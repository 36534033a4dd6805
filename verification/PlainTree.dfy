// The simple thing the file cache stands for: a map from path to file or directory.
// Directory sizes are not stored; they are recomputed from the files below.
module PlainTree {
  import opened StoragePaths
  import opened Sums

  datatype Node = File(size: nat) | Dir

  type Tree = map<Path, Node>

  function Own(n: Node): nat {
    match n
    case File(size) => size
    case Dir => 0
  }

  // The sizes of the entries at or below `d`; a directory contributes nothing itself.
  ghost function SizesUnder(t: Tree, d: Path): map<Path, int> {
    map p | p in t && d <= p :: Own(t[p])
  }

  ghost function Total(t: Tree, d: Path): int {
    Sum(SizesUnder(t, d))
  }

  // `p` with the leading `from` replaced by `to`; paths outside `from` stay.
  function Subst(from: Path, to: Path, p: Path): Path {
    if from <= p then to + p[|from|..] else p
  }

  // ---------- the plain operations ----------

  function Remove(t: Tree, d: Path): Tree {
    map p | p in t && !(d <= p) :: t[p]
  }

  function Rename(t: Tree, from: Path, to: Path): Tree {
    map p | p in (set q | q in t :: Subst(from, to, q)) && Subst(to, from, p) in t :: t[Subst(to, from, p)]
  }

  // ---------- substitution ----------

  lemma SubstFacts(from: Path, to: Path, p: Path)
    ensures from <= p ==> to <= Subst(from, to, p) && Subst(to, from, Subst(from, to, p)) == p
    ensures from < p <==> from <= p && to < Subst(from, to, p)
    ensures !(from <= p) ==> Subst(from, to, p) == p
  {
    if from <= p {
      var r := p[|from|..];
      assert from + r == p;
      assert (to + r)[|to|..] == r;
      assert to <= to + r;
    }
  }

  // The subtree below `to` is vacant.
  ghost predicate Vacant(keys: set<Path>, to: Path) {
    forall p :: p in keys ==> !(to <= p)
  }

  // Onto a vacant target the substitution is one to one on the keys, and the opposite
  // substitution undoes it.
  lemma SubstInverse(keys: set<Path>, from: Path, to: Path, p: Path)
    requires Vacant(keys, to) && p in keys
    ensures Subst(to, from, Subst(from, to, p)) == p
  {
    SubstFacts(from, to, p);
  }

  lemma RenameLookup(t: Tree, from: Path, to: Path)
    requires Vacant(t.Keys, to)
    ensures forall p :: p in t ==> Subst(from, to, p) in Rename(t, from, to) &&
                                   Rename(t, from, to)[Subst(from, to, p)] == t[p]
    ensures forall p :: p in Rename(t, from, to) ==>
                          Subst(to, from, p) in t && Subst(from, to, Subst(to, from, p)) == p
  {
    forall p | p in t
      ensures Subst(to, from, Subst(from, to, p)) == p
    {
      SubstInverse(t.Keys, from, to, p);
    }
  }

  // ---------- totals ----------

  lemma TotalNonNegative(t: Tree, d: Path)
    ensures Total(t, d) >= 0
    ensures d in t && t[d].File? ==> Total(t, d) >= Own(t[d])
  {
    SumNonNegative(SizesUnder(t, d));
    if d in t {
      assert d in SizesUnder(t, d);
    }
  }

  lemma TotalPut(t: Tree, p: Path, n: Node, d: Path)
    ensures Total(t[p := n], d) ==
            Total(t, d) + (if d <= p then Own(n) - (if p in t then Own(t[p]) else 0) else 0)
  {
    if d <= p {
      assert SizesUnder(t[p := n], d) == SizesUnder(t, d)[p := Own(n)];
      SumUpdate(SizesUnder(t, d), p, Own(n));
    } else {
      assert SizesUnder(t[p := n], d) == SizesUnder(t, d);
    }
  }

  lemma TotalRemove(t: Tree, x: Path, d: Path)
    ensures d <= x ==> Total(Remove(t, x), d) == Total(t, d) - Total(t, x)
    ensures !(d <= x) && !(x <= d) ==> Total(Remove(t, x), d) == Total(t, d)
  {
    if d <= x {
      SumSplit(SizesUnder(t, d), SizesUnder(Remove(t, x), d), SizesUnder(t, x));
    } else if !(x <= d) {
      forall p | d <= p && p in t
        ensures !(x <= p)
      {
        PrefixesComparable(d, x, p);
      }
      assert SizesUnder(Remove(t, x), d) == SizesUnder(t, d);
    }
  }

  lemma PrefixesComparable(a: Path, b: Path, p: Path)
    ensures a <= p && b <= p ==> a <= b || b <= a
  {
    if a <= p && b <= p {
      if |a| <= |b| {
        assert b[..|a|] == p[..|a|];
      } else {
        assert a[..|b|] == p[..|b|];
      }
    }
  }

  // A file or an absent path carries exactly its own size.
  lemma TotalLeaf(t: Tree, p: Path)
    requires forall q :: q in t ==> !(p < q)
    ensures Total(t, p) == if p in t then Own(t[p]) else 0
  {
    forall q | q in t && p <= q
      ensures q == p
    {
      assert q[..|p|] == p;
    }
    if p in t {
      assert SizesUnder(t, p) == map[p := Own(t[p])];
      SumFrom(SizesUnder(t, p), p);
      assert SizesUnder(t, p) - {p} == map[];
    } else {
      assert SizesUnder(t, p) == map[];
    }
  }

  // What a rename does to every total: the moved subtree keeps its totals, the chains above
  // the two ends lose and gain the moved amount, everything else is unchanged.
  lemma TotalRename(t: Tree, from: Path, to: Path, d: Path)
    requires Vacant(t.Keys, to) && !(from <= to) && d in Rename(t, from, to)
    ensures to <= d ==> Total(Rename(t, from, to), d) == Total(t, Subst(to, from, d))
    ensures !(to <= d) ==> Total(Rename(t, from, to), d) ==
                           Total(t, d) - (if d < from then Total(t, from) else 0) +
                             (if d < to then Total(t, from) else 0)
  {
    var t' := Rename(t, from, to);
    RenameLookup(t, from, to);
    if to <= d {
      TotalTransplant(t, from, to, d);
    } else {
      assert !(from <= d) by {
        var q := Subst(to, from, d);
        assert Subst(from, to, q) == d && q == d;
        SubstFacts(from, to, d);
      }
      RenameOutside(t, from, to);
      TotalRemove(t, from, d);
      TotalRemove(t', to, d);
      assert Remove(t', to) == Remove(t, from);
      TotalTransplant(t, from, to, to);
      assert Subst(to, from, to) == from;
    }
  }

  lemma RenameOutside(t: Tree, from: Path, to: Path)
    requires Vacant(t.Keys, to)
    ensures Remove(Rename(t, from, to), to) == Remove(t, from)
  {
    RenameLookup(t, from, to);
    var t' := Rename(t, from, to);
    forall p
      ensures p in t' && !(to <= p) <==> p in t && !(from <= p)
      ensures p in t' && !(to <= p) ==> t'[p] == t[p]
    {
      SubstFacts(from, to, p);
      SubstFacts(to, from, p);
      if p in t' && !(to <= p) {
        SubstFacts(from, to, Subst(to, from, p));
      }
    }
  }

  lemma TotalTransplant(t: Tree, from: Path, to: Path, d: Path)
    requires Vacant(t.Keys, to) && to <= d
    ensures Total(Rename(t, from, to), d) == Total(t, Subst(to, from, d))
  {
    var c := Subst(to, from, d);
    var a, b := SizesUnder(t, c), SizesUnder(Rename(t, from, to), d);
    TransplantForth(t, from, to, d);
    TransplantBack(t, from, to, d);
    var name := map p | p in a :: Subst(from, to, p);
    assert name.Values == b.Keys by {
      forall p | p in b
        ensures p in name.Values
      {
        assert Subst(to, from, p) in name;
      }
    }
    SumRenamed(a, b, name);
  }

  lemma TransplantForth(t: Tree, from: Path, to: Path, d: Path)
    requires Vacant(t.Keys, to) && to <= d
    ensures forall p :: p in SizesUnder(t, Subst(to, from, d)) ==>
              Subst(from, to, p) in SizesUnder(Rename(t, from, to), d) &&
              SizesUnder(Rename(t, from, to), d)[Subst(from, to, p)] == SizesUnder(t, Subst(to, from, d))[p] &&
              Subst(to, from, Subst(from, to, p)) == p
  {
    var c := Subst(to, from, d);
    RenameLookup(t, from, to);
    SubstFacts(to, from, d);
    forall p | p in SizesUnder(t, c)
      ensures d <= Subst(from, to, p) && Subst(to, from, Subst(from, to, p)) == p
    {
      SubstPrefix(from, to, c, p);
      SubstFacts(from, to, p);
    }
  }

  lemma TransplantBack(t: Tree, from: Path, to: Path, d: Path)
    requires Vacant(t.Keys, to) && to <= d
    ensures forall p :: p in SizesUnder(Rename(t, from, to), d) ==>
              Subst(to, from, p) in SizesUnder(t, Subst(to, from, d)) && Subst(from, to, Subst(to, from, p)) == p
  {
    RenameLookup(t, from, to);
    forall p | p in SizesUnder(Rename(t, from, to), d)
      ensures Subst(to, from, d) <= Subst(to, from, p)
    {
      SubstPrefix(to, from, d, p);
    }
  }

  lemma SubstPrefix(from: Path, to: Path, c: Path, p: Path)
    requires from <= c
    ensures c <= p ==> from <= p && Subst(from, to, c) <= Subst(from, to, p)
    ensures c < p ==> Subst(from, to, c) < Subst(from, to, p)
  {
    if c <= p {
      assert p[..|from|] == c[..|from|];
      assert p[|from|..][..|c| - |from|] == c[|from|..];
    }
  }
}
