/**
  The two stores an interner keeps, as values: the dense store `vect`, whose
  positions are the handles, and the dedup index from value to handle.  The
  invariant that ties them together is shared by both interner classes, and
  `Dedup` describes the dense store that prefilling produces.
*/
module Stores {
  import opened Names

  /**
    The representation invariant of an interner.  `gensyms` is the set of
    positions minted without deduplication (by gensym or gensym_copy):
    - every index entry `v -> n` points at a position holding `v`;
    - a position is a gensym exactly when it is not the indexed handle of the
      value it holds, so the index holds exactly the deduplicated handles;
    - the store's length counts the interning events: one per index entry
      plus one per gensym;
    - every position fits in a handle.
  */
  ghost predicate Coherent<T>(vect: seq<T>, index: map<T, Name>, gensyms: set<int>) {
    && |vect| <= NameLimit
    && (forall v | v in index :: index[v] as int < |vect| && vect[index[v]] == v)
    && (forall n | n in gensyms :: 0 <= n < |vect|)
    && (forall n | 0 <= n < |vect| :: n in gensyms <==> !(vect[n] in index && index[vect[n]] as int == n))
    && |vect| == |index| + |gensyms|
  }

  /**
    Without gensyms, the index holds exactly the stored values, and each at
    the position where it is stored.
  */
  lemma IndexWithoutGensyms<T(!new)>(vect: seq<T>, index: map<T, Name>)
    requires Coherent(vect, index, {})
    ensures forall v :: v in index <==> v in vect
    ensures forall n | 0 <= n < |vect| :: vect[n] in index && index[vect[n]] as int == n
  {
  }

  /**
    One step of prefilling: with the first `i` values interned and no
    gensym, interning `init[i]` either finds it (the store already is the
    deduplication of one more value) or appends it (and there is room for it).
  */
  lemma PrefillStep<T(!new)>(init: seq<T>, i: nat, vect: seq<T>, index: map<T, Name>)
    requires i < |init| && |Dedup(init)| <= NameLimit
    requires Coherent(vect, index, {}) && vect == Dedup(init[..i])
    ensures init[i] in index ==> vect == Dedup(init[..i + 1])
    ensures init[i] !in index ==> |vect| < NameLimit && vect + [init[i]] == Dedup(init[..i + 1])
  {
    IndexWithoutGensyms(vect, index);
    DedupStep(init, i);
    DedupPrefix(init, i + 1);
  }

  /**
    The index of a table whose store is `Dedup(init)` and that holds no
    gensym: its keys are the values of `init`, and the first occurrence of
    each value has as handle the number of distinct values before it.
  */
  lemma PrefilledIndex<T(!new)>(init: seq<T>, vect: seq<T>, index: map<T, Name>)
    requires Coherent(vect, index, {}) && vect == Dedup(init)
    ensures forall v :: v in index <==> v in init
    ensures forall i | 0 <= i < |init| && init[i] !in init[..i] ::
              init[i] in index && index[init[i]] as int == |Dedup(init[..i])|
  {
    IndexWithoutGensyms(vect, index);
    forall i | 0 <= i < |init| && init[i] !in init[..i]
      ensures init[i] in index && index[init[i]] as int == |Dedup(init[..i])|
    {
      DedupFirstPosition(init, i);
    }
  }

  /** No value occurs twice in `s`. */
  predicate Distinct<T(==)>(s: seq<T>) {
    forall i, j | 0 <= i < j < |s| :: s[i] != s[j]
  }

  /**
    The distinct values of `s` in order of first occurrence: the dense store
    of an interner prefilled with `s`, since each value is interned in list
    order and a repeated value reuses its first handle.
  */
  function Dedup<T(==,!new)>(s: seq<T>): (r: seq<T>)
    ensures forall x :: x in r <==> x in s
    ensures Distinct(r)
    ensures |r| <= |s|
  {
    if s == [] then []
    else
      var d := Dedup(s[..|s| - 1]);
      if s[|s| - 1] in d then d else d + [s[|s| - 1]]
  }

  /**
    The unfolding step of `Dedup` restated for the prefixes of one list:
    extending the prefix by one element extends its deduplication by that
    element exactly when it did not occur earlier.  A helper for `PrefillStep`.
  */
  lemma DedupStep<T(!new)>(s: seq<T>, i: nat)
    requires i < |s|
    ensures s[i] in Dedup(s[..i]) <==> s[i] in s[..i]
    ensures Dedup(s[..i + 1]) == if s[i] in s[..i] then Dedup(s[..i]) else Dedup(s[..i]) + [s[i]]
  {
    var p := s[..i + 1];
    assert p[..|p| - 1] == s[..i];
    if s[i] in s[..i] {
      var k :| 0 <= k < i && s[..i][k] == s[i];
    }
  }

  /** Deduplicating a longer list never renumbers the distinct values of a prefix. */
  lemma {:induction false} DedupPrefix<T(!new)>(s: seq<T>, k: nat)
    requires k <= |s|
    ensures Dedup(s[..k]) <= Dedup(s)
  {
    if k < |s| {
      var p := s[..|s| - 1];
      DedupPrefix(p, k);
      assert p[..k] == s[..k];
      assert Dedup(p) <= Dedup(s);
    } else {
      assert s[..k] == s;
    }
  }

  /**
    The first occurrence of a value at index `i` lands at the position that
    counts the distinct values before it.
  */
  lemma {:induction false} DedupFirstPosition<T(!new)>(s: seq<T>, i: nat)
    requires i < |s| && s[i] !in s[..i]
    ensures |Dedup(s[..i])| < |Dedup(s)|
    ensures Dedup(s)[|Dedup(s[..i])|] == s[i]
  {
    var p := s[..i + 1];
    assert p[..|p| - 1] == s[..i];
    assert Dedup(p) == Dedup(s[..i]) + [s[i]];
    DedupPrefix(s, i + 1);
  }
}
