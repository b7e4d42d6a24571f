/** dedupeAliases of pkg/javakeystore/javakeystore.go, on the aliases alone: times and certificates are not touched. */
module Dedupe {
  import opened Bytes

  const CERT: bytes := Ascii("cert")

  function Base(alias: bytes): bytes {
    if alias == [] then CERT else alias
  }

  /** The n-th alias tried for a base: the base itself, then base-2, base-3 and so on. */
  function Candidate(base: bytes, n: nat): bytes
    requires n >= 1
  {
    if n == 1 then base else base + Ascii("-") + Decimal(n)
  }

  lemma CandidateInjective(base: bytes, m: nat, n: nat)
    requires m >= 1 && n >= 1 && Candidate(base, m) == Candidate(base, n)
    ensures m == n
  {
    var head := base + Ascii("-");
    if m > 1 && n > 1 {
      assert Candidate(base, m)[|head|..] == Decimal(m) && Candidate(base, n)[|head|..] == Decimal(n);
      DecimalInjective(m, n);
    }
  }

  /** The candidates tried before the n-th. */
  ghost function Tried(base: bytes, n: nat): set<bytes>
    requires n >= 1
  {
    set k | 1 <= k < n :: Candidate(base, k)
  }

  /** As many different candidates as numbers. */
  lemma {:induction false} TriedCount(base: bytes, n: nat)
    requires n >= 1
    ensures |Tried(base, n)| == n - 1
  {
    if n > 1 {
      TriedCount(base, n - 1);
      var c := Candidate(base, n - 1);
      assert Tried(base, n) == Tried(base, n - 1) + {c};
      if c in Tried(base, n - 1) {
        var k :| 1 <= k < n - 1 && Candidate(base, k) == c;
        CandidateInjective(base, k, n - 1);
      }
    }
  }

  /** By pigeonhole, a run of taken candidates is no longer than the set of taken aliases. */
  lemma TakenRunIsShort(base: bytes, seen: set<bytes>, n: nat)
    requires n >= 1 && Tried(base, n) <= seen
    ensures n <= |seen| + 1
  {
    TriedCount(base, n);
    SubsetSize(Tried(base, n), seen);
  }

  lemma {:induction false} SubsetSize<T>(a: set<T>, b: set<T>)
    requires a <= b
    ensures |a| <= |b|
  {
    if a != {} {
      var x :| x in a;
      SubsetSize(a - {x}, b - {x});
    }
  }

  /** The number of the first free candidate from the n-th on. */
  function FirstFree(base: bytes, seen: set<bytes>, n: nat): (m: nat)
    requires n >= 1 && Tried(base, n) <= seen
    ensures n <= m <= |seen| + 1
    ensures Candidate(base, m) !in seen
    ensures forall k :: n <= k < m ==> Candidate(base, k) in seen
    decreases |seen| + 1 - n
  {
    TakenRunIsShort(base, seen, n);
    if Candidate(base, n) !in seen then n
    else
      assert Tried(base, n + 1) == Tried(base, n) + {Candidate(base, n)};
      TakenRunIsShort(base, seen, n + 1);
      FirstFree(base, seen, n + 1)
  }

  function FreeAlias(alias: bytes, seen: set<bytes>): (free: bytes)
    ensures free !in seen && free != []
  {
    Candidate(Base(alias), FirstFree(Base(alias), seen, 1))
  }

  /** The aliases written, given those already taken. */
  function Deduped(aliases: seq<bytes>, seen: set<bytes>): (out: seq<bytes>)
    ensures |out| == |aliases|
  {
    if aliases == [] then []
    else
      var free := FreeAlias(aliases[0], seen);
      [free] + Deduped(aliases[1..], seen + {free})
  }

  ghost predicate Distinct(aliases: seq<bytes>) {
    forall i, j :: 0 <= i < j < |aliases| ==> aliases[i] != aliases[j]
  }

  predicate NonEmpty(aliases: seq<bytes>) {
    forall i :: 0 <= i < |aliases| ==> aliases[i] != []
  }

  ghost predicate Avoids(aliases: seq<bytes>, seen: set<bytes>) {
    forall i :: 0 <= i < |aliases| ==> aliases[i] !in seen
  }

  /** The written aliases are non-empty, pairwise distinct, and none was taken before. */
  lemma {:induction false} DedupedIsDistinct(aliases: seq<bytes>, seen: set<bytes>)
    ensures Distinct(Deduped(aliases, seen)) && NonEmpty(Deduped(aliases, seen)) && Avoids(Deduped(aliases, seen), seen)
  {
    if aliases != [] {
      var free := FreeAlias(aliases[0], seen);
      DedupedIsDistinct(aliases[1..], seen + {free});
      var rest := Deduped(aliases[1..], seen + {free});
      forall i | 0 <= i < |rest| ensures rest[i] != free && rest[i] !in seen {
        assert rest[i] !in seen + {free};
      }
    }
  }

  ghost function Members(aliases: seq<bytes>): set<bytes> {
    set a | a in aliases
  }

  /**
   What each alias becomes, by the outputs before it alone: itself ("cert" if it is
   empty) when that is free, and otherwise itself, a dash and the least number
   from 2 on that makes it so.
   */
  lemma DedupedExactly(aliases: seq<bytes>, i: nat)
    requires i < |aliases|
    ensures var taken, out := Deduped(aliases, {})[..i], Deduped(aliases, {})[i];
            var base := if aliases[i] == [] then [99, 101, 114, 116] else aliases[i];
            && out !in taken
            && (base !in taken ==> out == base)
            && (base in taken ==>
                  exists n: nat :: n >= 2 && out == base + [45] + Decimal(n)
                    && forall k: nat :: 2 <= k < n ==> base + [45] + Decimal(k) in taken)
  {
    hide Deduped;
    DedupedAt(aliases, {}, i);
    var taken, out := Deduped(aliases, {})[..i], Deduped(aliases, {})[i];
    var base := Base(aliases[i]);
    var seen := Members(taken);
    assert seen == {} + seen;
    assert Ascii("-") == [45] && CERT == [99, 101, 114, 116];
    var n := FirstFree(base, seen, 1);
    assert Candidate(base, 1) == base;
    forall k: nat | 2 <= k < n ensures base + [45] + Decimal(k) in taken {
      assert Candidate(base, k) in seen;
    }
    if base in taken {
      assert n >= 2 && out == base + [45] + Decimal(n);
    }
  }

  lemma {:induction false} DedupedAt(aliases: seq<bytes>, seen: set<bytes>, i: nat)
    requires i < |aliases|
    ensures var out := Deduped(aliases, seen);
            out[i] == FreeAlias(aliases[i], seen + Members(out[..i]))
  {
    hide FreeAlias;
    var out, free := Deduped(aliases, seen), FreeAlias(aliases[0], seen);
    if i == 0 {
      assert seen + Members(out[..0]) == seen;
    } else {
      var rest := Deduped(aliases[1..], seen + {free});
      DedupedAt(aliases[1..], seen + {free}, i - 1);
      assert out[..i] == [free] + rest[..i - 1];
      assert seen + Members(out[..i]) == seen + {free} + Members(rest[..i - 1]);
    }
  }

  /** Two equal aliases: the second becomes its name and "-2". */
  lemma TwoAlike(a: bytes)
    requires a != []
    ensures Deduped([a, a], {}) == [a, a + [45, 50]]
  {
    hide Deduped;
    var out := Deduped([a, a], {});
    DedupedExactly([a, a], 0);
    DedupedExactly([a, a], 1);
    assert out[..1] == [out[0]] && Decimal(2) == [50];
    assert a + [45] + Decimal(2) == a + [45, 50];
    assert |a + [45] + Decimal(2)| > |a|;
  }

  /** An alias no earlier output has taken is kept. */
  lemma {:induction false} FreeAliasIsKept(aliases: seq<bytes>, seen: set<bytes>, i: nat)
    requires i < |aliases| && aliases[i] != []
    requires aliases[i] !in seen && aliases[i] !in Deduped(aliases, seen)[..i]
    ensures Deduped(aliases, seen)[i] == aliases[i]
  {
    var free := FreeAlias(aliases[0], seen);
    if i > 0 {
      var rest := Deduped(aliases[1..], seen + {free});
      assert Deduped(aliases, seen)[0] == free && Deduped(aliases, seen)[..i][0] == free;
      assert Deduped(aliases, seen)[..i] == [free] + rest[..i - 1];
      FreeAliasIsKept(aliases[1..], seen + {free}, i - 1);
    }
  }

  /** Nothing is changed exactly when the aliases are distinct, non-empty and free. */
  lemma {:induction false} DedupedIsSame(aliases: seq<bytes>, seen: set<bytes>)
    ensures Deduped(aliases, seen) == aliases <==> Distinct(aliases) && NonEmpty(aliases) && Avoids(aliases, seen)
  {
    DedupedIsDistinct(aliases, seen);
    if Distinct(aliases) && NonEmpty(aliases) && Avoids(aliases, seen) {
      forall i | 0 <= i < |aliases| ensures Deduped(aliases, seen)[i] == aliases[i] {
        DistinctIsKept(aliases, seen, i);
      }
      assert Deduped(aliases, seen) == aliases;
    }
  }

  lemma {:induction false} DistinctIsKept(aliases: seq<bytes>, seen: set<bytes>, i: nat)
    requires Distinct(aliases) && NonEmpty(aliases) && Avoids(aliases, seen) && i < |aliases|
    ensures Deduped(aliases, seen)[i] == aliases[i]
    decreases i
  {
    forall j | 0 <= j < i ensures Deduped(aliases, seen)[..i][j] == aliases[j] {
      DistinctIsKept(aliases, seen, j);
    }
    FreeAliasIsKept(aliases, seen, i);
  }

  /** A second application changes nothing. */
  lemma DedupedTwice(aliases: seq<bytes>)
    ensures Deduped(Deduped(aliases, {}), {}) == Deduped(aliases, {})
  {
    DedupedIsDistinct(aliases, {});
    DedupedIsSame(Deduped(aliases, {}), {});
  }

  /** What earlier aliases become does not depend on later ones. */
  lemma {:induction false} DedupedPrefix(aliases: seq<bytes>, more: seq<bytes>, seen: set<bytes>)
    ensures Deduped(aliases + more, seen)[..|aliases|] == Deduped(aliases, seen)
  {
    if aliases != [] {
      var free := FreeAlias(aliases[0], seen);
      assert (aliases + more)[1..] == aliases[1..] + more;
      DedupedPrefix(aliases[1..], more, seen + {free});
    }
  }

  /** The inner search of dedupeAliases: it has no bound of its own, and stops by the pigeonhole argument. */
  method SearchAlias(alias: bytes, seen: set<bytes>) returns (free: bytes, ghost tries: nat)
    ensures free == FreeAlias(alias, seen)
    ensures tries <= |seen| + 1
  {
    var base := Base(alias);
    free := base;
    var n := 2;
    tries := 1;
    while free in seen
      invariant n >= 2 && free == Candidate(base, n - 1) && tries == n - 1
      invariant Tried(base, n - 1) <= seen
      invariant FirstFree(base, seen, n - 1) == FirstFree(base, seen, 1)
      invariant tries <= |seen| + 1
      decreases |seen| + 2 - n
    {
      assert Tried(base, n) == Tried(base, n - 1) + {free};
      TakenRunIsShort(base, seen, n);
      free := base + Ascii("-") + Decimal(n);
      n, tries := n + 1, tries + 1;
    }
  }

  /** dedupeAliases. */
  method DedupeAliases(aliases: seq<bytes>) returns (out: seq<bytes>)
    ensures out == Deduped(aliases, {})
  {
    hide FreeAlias;
    var seen: set<bytes> := {};
    out := [];
    for i := 0 to |aliases|
      invariant |out| == i
      invariant out + Deduped(aliases[i..], seen) == Deduped(aliases, {})
    {
      var alias, _ := SearchAlias(aliases[i], seen);
      assert aliases[i..][0] == aliases[i] && aliases[i..][1..] == aliases[i + 1..];
      seen := seen + {alias};
      assert out + ([alias] + Deduped(aliases[i + 1..], seen)) == out + [alias] + Deduped(aliases[i + 1..], seen);
      out := out + [alias];
    }
    assert aliases[|aliases|..] == [];
  }
}
