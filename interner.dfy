/**
  The two interners of src/libsyntax/util/interner.rs.  Each owns a dense,
  append-only store `vect` (a handle is a position in it) and a dedup `index`
  from value to handle.  `intern` deduplicates through the index; `gensym`
  and `gensym_copy` append without touching it, so their entries are never
  found by value.  The ghost field `Gensyms` records which positions were
  minted that way.
*/
module Interning {
  import opened Names
  import opened Stores

  /** The generic interner, over any type with equality. */
  class Interner<T(==,!new)> {
    var vect: seq<T>
    var index: map<T, Name>
    ghost var Gensyms: set<int>

    ghost predicate Valid()
      reads this
    {
      Coherent(vect, index, Gensyms)
    }

    /** An empty interner. */
    constructor ()
      ensures Valid()
      ensures vect == [] && index == map[] && Gensyms == {}
    {
      vect := [];
      index := map[];
      Gensyms := {};
    }

    /**
      An interner holding each value of `init`, interned in list order: the
      store is the distinct values in order of first occurrence, and each
      value's handle is the number of distinct values before its first
      occurrence.
    */
    static method Prefill(init: seq<T>) returns (rv: Interner<T>)
      requires |Dedup(init)| <= NameLimit
      ensures fresh(rv) && rv.Valid()
      ensures rv.vect == Dedup(init) && rv.Gensyms == {}
      ensures forall v :: v in rv.index <==> v in init
      ensures forall i | 0 <= i < |init| && init[i] !in init[..i] ::
                rv.index[init[i]] as int == |Dedup(init[..i])|
    {
      rv := new Interner();
      for i := 0 to |init|
        invariant fresh(rv) && rv.Valid()
        invariant rv.vect == Dedup(init[..i]) && rv.Gensyms == {}
      {
        PrefillStep(init, i, rv.vect, rv.index);
        var h := rv.Intern(init[i]);
      }
      assert init[..|init|] == init;
      PrefilledIndex(init, rv.vect, rv.index);
    }

    /**
      The handle of `v`: the one already in the index, with nothing changed,
      or else the next position, with `v` appended and indexed.
    */
    method Intern(v: T) returns (r: Name)
      requires Valid()
      requires v !in index ==> |vect| < NameLimit
      modifies this
      ensures Valid()
      ensures old(v in index) ==> r == old(index[v]) && vect == old(vect) && index == old(index)
      ensures old(v !in index) ==> r as int == old(|vect|) && vect == old(vect) + [v] && index == old(index)[v := r]
      ensures Gensyms == old(Gensyms)
      ensures Find(v) == Some(r)
      ensures forall w | w in index && w != v :: index[w] != r
    {
      if v in index {
        return index[v];
      }
      r := |vect| as Name;
      index := index[v := r];
      vect := vect + [v];
    }

    /** A fresh handle for `v`, appended but left out of the index. */
    method Gensym(v: T) returns (r: Name)
      requires Valid()
      requires |vect| < NameLimit
      modifies this
      ensures Valid()
      ensures r as int == old(|vect|) && vect == old(vect) + [v]
      ensures index == old(index) && Gensyms == old(Gensyms) + {r as int}
    {
      r := |vect| as Name;
      vect := vect + [v];
      Gensyms := Gensyms + {r as int};
    }

    /**
      The value at handle `idx`.  A handle outside the store is a fatal
      indexing error in the source, hence the precondition.  Looking the
      value up again gives back `idx` exactly when `idx` was not a gensym.
    */
    function Get(idx: Name): (r: T)
      reads this
      requires Valid()
      requires idx as int < |vect|
      ensures Find(r) == Some(idx) <==> idx as int !in Gensyms
    {
      vect[idx]
    }

    /** The number of entries: one per deduplicated value plus one per gensym. */
    function Len(): (r: nat)
      reads this
      requires Valid()
      ensures r == |index| + |Gensyms|
      ensures r <= NameLimit
    {
      |vect|
    }

    /**
      The deduplicated handle of `v`, if any: the unique position holding `v`
      that is not a gensym, and `None` when every position holding `v` is one.
    */
    function Find(v: T): (r: Option<Name>)
      reads this
      requires Valid()
      ensures r.Some? ==> r.value as int < |vect| && r.value as int !in Gensyms
      ensures forall n | 0 <= n < |vect| && n !in Gensyms :: vect[n] == v <==> r == Some(n as Name)
    {
      if v in index then Some(index[v]) else None
    }

    /** Discards every entry, so that handles restart at 0. */
    method Clear()
      modifies this
      ensures Valid()
      ensures vect == [] && index == map[] && Gensyms == {}
    {
      index := map[];
      vect := [];
      Gensyms := {};
    }
  }

  /** The interner specialised to strings, with gensym_copy and reset. */
  class StrInterner {
    var vect: seq<string>
    var index: map<string, Name>
    ghost var Gensyms: set<int>

    ghost predicate Valid()
      reads this
    {
      Coherent(vect, index, Gensyms)
    }

    /** An empty interner. */
    constructor ()
      ensures Valid()
      ensures vect == [] && index == map[] && Gensyms == {}
    {
      vect := [];
      index := map[];
      Gensyms := {};
    }

    /** An interner holding each string of `init`, interned in list order. */
    static method Prefill(init: seq<string>) returns (rv: StrInterner)
      requires |Dedup(init)| <= NameLimit
      ensures fresh(rv) && rv.Valid()
      ensures rv.vect == Dedup(init) && rv.Gensyms == {}
      ensures forall v :: v in rv.index <==> v in init
      ensures forall i | 0 <= i < |init| && init[i] !in init[..i] ::
                rv.index[init[i]] as int == |Dedup(init[..i])|
    {
      rv := new StrInterner();
      for i := 0 to |init|
        invariant fresh(rv) && rv.Valid()
        invariant rv.vect == Dedup(init[..i]) && rv.Gensyms == {}
      {
        PrefillStep(init, i, rv.vect, rv.index);
        var h := rv.Intern(init[i]);
      }
      assert init[..|init|] == init;
      PrefilledIndex(init, rv.vect, rv.index);
    }

    /** The handle of `v`, reusing an indexed one or appending and indexing `v`. */
    method Intern(v: string) returns (r: Name)
      requires Valid()
      requires v !in index ==> |vect| < NameLimit
      modifies this
      ensures Valid()
      ensures old(v in index) ==> r == old(index[v]) && vect == old(vect) && index == old(index)
      ensures old(v !in index) ==> r as int == old(|vect|) && vect == old(vect) + [v] && index == old(index)[v := r]
      ensures Gensyms == old(Gensyms)
      ensures Find(v) == Some(r)
      ensures forall w | w in index && w != v :: index[w] != r
    {
      if v in index {
        return index[v];
      }
      r := Len() as Name;
      index := index[v := r];
      vect := vect + [v];
    }

    /** A fresh handle for `v`, appended but left out of the index. */
    method Gensym(v: string) returns (r: Name)
      requires Valid()
      requires |vect| < NameLimit
      modifies this
      ensures Valid()
      ensures r as int == old(|vect|) && vect == old(vect) + [v]
      ensures index == old(index) && Gensyms == old(Gensyms) + {r as int}
    {
      r := Len() as Name;
      vect := vect + [v];
      Gensyms := Gensyms + {r as int};
    }

    /**
      A fresh handle whose entry repeats the string at `idx`, left out of the
      index.  A handle outside the store is a fatal indexing error.
    */
    method GensymCopy(idx: Name) returns (r: Name)
      requires Valid()
      requires idx as int < |vect| < NameLimit
      modifies this
      ensures Valid()
      ensures r as int == old(|vect|) && vect == old(vect) + [old(vect)[idx]]
      ensures index == old(index) && Gensyms == old(Gensyms) + {r as int}
    {
      r := Len() as Name;
      var existing := vect[idx];
      vect := vect + [existing];
      Gensyms := Gensyms + {r as int};
    }

    /**
      The string at handle `idx`; out of range is fatal.  Looking it up again
      gives back `idx` exactly when `idx` was not a gensym.
    */
    function Get(idx: Name): (r: string)
      reads this
      requires Valid()
      requires idx as int < |vect|
      ensures Find(r) == Some(idx) <==> idx as int !in Gensyms
    {
      vect[idx]
    }

    /** The number of entries: one per deduplicated string plus one per gensym. */
    function Len(): (r: nat)
      reads this
      requires Valid()
      ensures r == |index| + |Gensyms|
      ensures r <= NameLimit
    {
      |vect|
    }

    /** The deduplicated handle of `v`: the unique non-gensym position holding it. */
    function Find(v: string): (r: Option<Name>)
      reads this
      requires Valid()
      ensures r.Some? ==> r.value as int < |vect| && r.value as int !in Gensyms
      ensures forall n | 0 <= n < |vect| && n !in Gensyms :: vect[n] == v <==> r == Some(n as Name)
    {
      if v in index then Some(index[v]) else None
    }

    /** Discards every entry, so that handles restart at 0. */
    method Clear()
      modifies this
      ensures Valid()
      ensures vect == [] && index == map[] && Gensyms == {}
    {
      index := map[];
      vect := [];
      Gensyms := {};
    }

    /** Replaces both stores wholesale with those of `other`. */
    method Reset(other: StrInterner)
      requires other.Valid()
      modifies this
      ensures Valid()
      ensures vect == old(other.vect) && index == old(other.index) && Gensyms == old(other.Gensyms)
    {
      index, vect, Gensyms := other.index, other.vect, other.Gensyms;
    }
  }
}
