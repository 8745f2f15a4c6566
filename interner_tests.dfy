/**
  The unit tests of src/libsyntax/util/interner.rs, each as a method whose
  postcondition pins down the handles and values the test expects, and the
  general promises behind them as client methods over an arbitrary interner.
*/
module InternerTests {
  import opened Names
  import opened Stores
  import opened Interning

  /** Interning the same value twice in a row returns the same handle. */
  method InternTwice<T(==,!new)>(t: Interner<T>, v: T) returns (a: Name, b: Name)
    requires t.Valid() && t.Len() < NameLimit
    modifies t
    ensures t.Valid()
    ensures a == b && t.Find(v) == Some(a)
  {
    a := t.Intern(v);
    b := t.Intern(v);
  }

  /** Interning two different values yields two different handles. */
  method InternDistinct<T(==,!new)>(t: Interner<T>, v: T, w: T) returns (a: Name, b: Name)
    requires t.Valid() && t.Len() + 1 < NameLimit
    requires v != w
    modifies t
    ensures t.Valid()
    ensures a != b
  {
    a := t.Intern(v);
    b := t.Intern(w);
  }

  /**
    Two gensyms of the same value yield two handles that differ from each
    other and from every handle the index held, and neither is found by value.
  */
  method GensymTwice<T(==,!new)>(t: Interner<T>, v: T) returns (a: Name, b: Name)
    requires t.Valid() && t.Len() + 1 < NameLimit
    modifies t
    ensures t.Valid()
    ensures a != b
    ensures forall w | w in old(t.index) :: old(t.index[w]) != a && old(t.index[w]) != b
    ensures t.Find(v) == old(t.Find(v))
  {
    a := t.Gensym(v);
    b := t.Gensym(v);
  }

  /**
    Every handle returned by intern or gensym gives back the value it was
    minted for, as long as the interner is not cleared.
  */
  method RoundTrip<T(==,!new)>(t: Interner<T>, v: T, w: T) returns (a: Name, b: Name)
    requires t.Valid() && t.Len() + 1 < NameLimit
    modifies t
    ensures t.Valid()
    ensures a as int < t.Len() && t.Get(a) == v
    ensures b as int < t.Len() && t.Get(b) == w
  {
    a := t.Intern(v);
    b := t.Gensym(w);
  }

  /**
    A gensym handle never equals a handle that a later intern returns, even
    for the same value.
  */
  method GensymThenIntern<T(==,!new)>(t: Interner<T>, v: T, w: T) returns (g: Name, a: Name)
    requires t.Valid() && t.Len() + 1 < NameLimit
    modifies t
    ensures t.Valid()
    ensures g != a
  {
    g := t.Gensym(v);
    a := t.Intern(w);
  }

  /**
    A round trip made earlier still holds after a further intern and gensym:
    appending never changes an existing entry.
  */
  method RoundTripLater<T(==,!new)>(t: Interner<T>, idx: Name, v: T, w: T) returns (a: Name, b: Name)
    requires t.Valid() && t.Len() + 1 < NameLimit
    requires idx as int < t.Len()
    modifies t
    ensures t.Valid()
    ensures idx as int < t.Len() && t.Get(idx) == old(t.Get(idx))
    ensures a as int < t.Len() && t.Get(a) == v
    ensures b as int < t.Len() && t.Get(b) == w
  {
    a := t.Intern(v);
    b := t.Gensym(w);
  }

  /** The test `i1`: an empty interner has no handle 13, so `get` on it is fatal. */
  method OutOfRangeOnEmpty() returns (inRange: bool)
    ensures !inRange
  {
    var i := new Interner<string>();
    inRange := 13 < i.Len();
  }

  /** The interning steps of `interner_tests`: "dog" gets 0, "cat" gets 1, repeats reuse them. */
  method InternDogsAndCats(i: Interner<string>) returns (names: seq<Name>)
    requires i.Valid() && i.vect == [] && i.index == map[]
    modifies i
    ensures i.Valid() && i.vect == ["dog", "cat"] && i.Gensyms == old(i.Gensyms)
    ensures names == [0, 0, 1, 1, 0]
  {
    assert "cat" != "dog" by { assert "cat"[0] != "dog"[0]; }
    var n0 := i.Intern("dog");
    var n1 := i.Intern("dog");
    var n2 := i.Intern("cat");
    var n3 := i.Intern("cat");
    var n4 := i.Intern("dog");
    names := [n0, n1, n2, n3, n4];
  }

  /** The gensym steps of `interner_tests`: each gensym gets the next handle, repeated or not. */
  method GensymZebrasAndDog(i: Interner<string>) returns (names: seq<Name>)
    requires i.Valid() && i.vect == ["dog", "cat"]
    modifies i
    ensures i.Valid() && i.vect == ["dog", "cat", "zebra", "zebra", "dog"]
    ensures names == [2, 3, 4]
  {
    var n5 := i.Gensym("zebra");
    var n6 := i.Gensym("zebra");
    var n7 := i.Gensym("dog");
    names := [n5, n6, n7];
  }

  /** The test `interner_tests`, on the generic interner. */
  method InternerScenario() returns (names: seq<Name>, values: seq<string>)
    ensures names == [0, 0, 1, 1, 0, 2, 3, 4]
    ensures values == ["dog", "cat", "zebra", "zebra", "dog"]
  {
    var i := new Interner<string>();
    var interned := InternDogsAndCats(i);
    var gensyms := GensymZebrasAndDog(i);
    names := interned + gensyms;
    values := [i.Get(0), i.Get(1), i.Get(2), i.Get(3), i.Get(4)];
  }

  /** The test `i3`: prefilling assigns handles in list order. */
  method PrefillScenario() returns (values: seq<string>, bob: Name)
    ensures values == ["Alan", "Bob", "Carol"]
    ensures bob == 1
  {
    assert "Bob" != "Alan" by { assert "Bob"[0] != "Alan"[0]; }
    assert "Carol" != "Alan" && "Carol" != "Bob" by {
      assert "Carol"[0] != "Alan"[0] && "Carol"[0] != "Bob"[0];
    }
    var init := ["Alan", "Bob", "Carol"];
    assert init[..1] == ["Alan"] && init[..2] == ["Alan", "Bob"];
    assert Dedup(init) == init;
    var i := Interner.Prefill(init);
    values := [i.Get(0), i.Get(1), i.Get(2)];
    bob := i.Intern("Bob");
  }

  /** The interning steps of `string_interner_tests`. */
  method StrInternDogsAndCats(i: StrInterner) returns (names: seq<Name>)
    requires i.Valid() && i.vect == [] && i.index == map[]
    modifies i
    ensures i.Valid() && i.vect == ["dog", "cat"] && i.Gensyms == old(i.Gensyms)
    ensures names == [0, 0, 1, 1, 0]
  {
    assert "cat" != "dog" by { assert "cat"[0] != "dog"[0]; }
    var n0 := i.Intern("dog");
    var n1 := i.Intern("dog");
    var n2 := i.Intern("cat");
    var n3 := i.Intern("cat");
    var n4 := i.Intern("dog");
    names := [n0, n1, n2, n3, n4];
  }

  /** The gensym steps of `string_interner_tests`. */
  method StrGensymZebrasAndDog(i: StrInterner) returns (names: seq<Name>)
    requires i.Valid() && i.vect == ["dog", "cat"]
    modifies i
    ensures i.Valid() && i.vect == ["dog", "cat", "zebra", "zebra", "dog"]
    ensures names == [2, 3, 4]
  {
    var n5 := i.Gensym("zebra");
    var n6 := i.Gensym("zebra");
    var n7 := i.Gensym("dog");
    names := [n5, n6, n7];
  }

  /**
    The gensym_copy steps of `string_interner_tests`: two copies of handle 2,
    then the values of the copies and of the five earlier entries.
  */
  method StrCopyZebraTwice(i: StrInterner) returns (names: seq<Name>, values: seq<string>)
    requires i.Valid() && i.vect == ["dog", "cat", "zebra", "zebra", "dog"]
    modifies i
    ensures names == [5, 6]
    ensures values == ["zebra", "zebra", "dog", "cat", "zebra", "zebra", "dog"]
  {
    var c5 := i.GensymCopy(2);
    var v5 := i.Get(5);
    var c6 := i.GensymCopy(2);
    var v6 := i.Get(6);
    names := [c5, c6];
    values := [v5, v6, i.Get(0), i.Get(1), i.Get(2), i.Get(3), i.Get(4)];
  }

  /**
    The test `string_interner_tests`: after the same steps as `interner_tests`,
    two gensym_copy calls of handle 2 mint handles 5 and 6 spelled "zebra",
    and the earlier entries keep their values.
  */
  method StrInternerScenario() returns (names: seq<Name>, values: seq<string>)
    ensures names == [0, 0, 1, 1, 0, 2, 3, 4, 5, 6]
    ensures values == ["zebra", "zebra", "dog", "cat", "zebra", "zebra", "dog"]
  {
    var i := new StrInterner();
    var interned := StrInternDogsAndCats(i);
    var gensyms := StrGensymZebrasAndDog(i);
    var copies;
    copies, values := StrCopyZebraTwice(i);
    names := interned + gensyms + copies;
  }

  /**
    Gensym hygiene: a gensym'd spelling is not found, and a later intern of
    the same spelling mints a separate entry that is.
  */
  method HygieneScenario() returns (before: Option<Name>, interned: Name, after: Option<Name>)
    ensures before == None
    ensures interned == 1 && after == Some(1)
  {
    var i := new StrInterner();
    var g := i.Gensym("tmp");
    before := i.Find("tmp");
    interned := i.Intern("tmp");
    after := i.Find("tmp");
  }

  /** Clearing restarts handles at 0; resetting adopts the other table's handles. */
  method ClearResetScenario() returns (first: Name, adopted: Option<Name>)
    ensures first == 0
    ensures adopted == Some(1)
  {
    var i := new StrInterner();
    var a := i.Intern("dog");
    var b := i.Intern("cat");
    i.Clear();
    first := i.Intern("cat");
    var other := new StrInterner();
    var c := other.Gensym("x");
    var d := other.Intern("dog");
    i.Reset(other);
    adopted := i.Find("dog");
  }
}
