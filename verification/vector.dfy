/**
 The dynamic vector: an array of pointers that is reallocated in steps of `growth`, and callbacks
 that create, destroy and compare what the pointers lead to.  A vector stands for the sequence of
 its pointers; every operation is a sequence operation on it.
 */
module Vectors {
  /** A pointer; zero is the null pointer. */
  type Ptr = int
  const NULL: Ptr := 0

  datatype Option<T> = None | Some(value: T)

  /** The two callbacks of a search: the key of an element, and the comparison of keys. */
  datatype Search = Search(key: Option<Ptr -> Ptr>, compare: Option<(Ptr, Ptr) -> int>)

  /** Whether a search for k stops at the pointer q. */
  predicate Hit(how: Search, k: Ptr, q: Ptr) {
    q != NULL && how.key.Some? && how.compare.Some? && how.compare.value(k, how.key.value(q)) == 0
  }

  // ---------------------------------------------------------------- what the operations mean

  function Created(fnew: Option<nat -> Ptr>, k: nat): Ptr {
    match fnew
    case Some(f) => f(k)
    case None => NULL
  }

  /** What n new elements are, when the calls of `fnew` are counted from k. */
  function CreatedAll(fnew: Option<nat -> Ptr>, k: nat, n: nat): (s: seq<Ptr>)
    ensures |s| == n
  {
    seq(n, i requires 0 <= i < n => Created(fnew, k + i))
  }

  /** The i-th new element is what the i-th of these calls returned, or null if there is no callback. */
  lemma CreatedIs(fnew: Option<nat -> Ptr>, k: nat, n: nat, i: nat)
    requires i < n
    ensures CreatedAll(fnew, k, n)[i] == if fnew.Some? then fnew.value(k + i) else NULL
  {
    assert CreatedAll(fnew, k, n)[i] == Created(fnew, k + i);
  }

  /** The pointers of s that a callback is called for, the last one first. */
  function Backwards(s: seq<Ptr>): seq<Ptr> {
    if s == [] then []
    else (if s[|s| - 1] != NULL then [s[|s| - 1]] else []) + Backwards(s[..|s| - 1])
  }

  /** Of pointers none of which is null, each is called for once, from the last to the first. */
  lemma {:induction false} BackwardsAt(s: seq<Ptr>, i: nat)
    requires NULL !in s && i < |s|
    ensures |Backwards(s)| == |s| && Backwards(s)[i] == s[|s| - 1 - i]
  {
    var n := |s| - 1;
    if n > 0 {
      BackwardsAt(s[..n], if i > 0 then i - 1 else 0);
    } else {
      BackwardsNone();
    }
  }

  /** Null pointers are left out. */
  lemma {:induction false} BackwardsSkips(s: seq<Ptr>, t: seq<Ptr>)
    ensures Backwards(s + [NULL] + t) == Backwards(s + t)
    decreases |t|
  {
    var n := |t| - 1;
    if t == [] {
      assert s + [NULL] + t == s + [NULL] && s + t == s;
      assert (s + [NULL])[..|s|] == s;
    } else {
      assert (s + [NULL] + t)[..|s| + 1 + n] == s + [NULL] + t[..n] && (s + t)[..|s| + n] == s + t[..n];
      BackwardsSkips(s, t[..n]);
    }
  }

  lemma BackwardsStep(d: seq<Ptr>, n: nat, i: nat, log: seq<Ptr>)
    requires n <= i < |d|
    ensures log + Backwards(d[n..i + 1]) == (if d[i] != NULL then log + [d[i]] else log) + Backwards(d[n..i])
  {
    assert d[n..i + 1][..i - n] == d[n..i];
  }

  lemma BackwardsNone()
    ensures Backwards([]) == []
  {}

  /** The allocation for a size: the smallest multiple of the growth that is enough. */
  function RoundUp(size: nat, growth: nat): (a: nat)
    requires growth >= 1
    ensures size <= a < size + growth && a % growth == 0
  {
    var a := Times(size / growth, growth);
    DivMod(size, growth);
    MultipleMod(size / growth, growth);
    MultipleMod(size / growth + 1, growth);
    if size - a > 0 then a + growth else a
  }

  function Times(q: nat, d: nat): nat { q * d }

  lemma DivMod(n: nat, d: nat)
    requires d >= 1
    ensures Times(n / d, d) <= n < Times(n / d, d) + d
    ensures Times(n / d + 1, d) == Times(n / d, d) + d
  {}

  lemma {:induction false} MultipleMod(q: nat, d: nat)
    requires d >= 1
    ensures Times(q, d) % d == 0
  {
    if q > 0 {
      MultipleMod(q - 1, d);
      assert Times(q, d) == Times(q - 1, d) + d;
      AddMod(Times(q - 1, d), d);
    }
  }

  lemma AddMod(n: nat, d: nat)
    requires d >= 1 && n % d == 0
    ensures (n + d) % d == 0
  {
    var k := (n + d) / d - n / d;
    assert d * k == d - (n + d) % d;
    assert k == 1;
  }

  /** s with everything a search for p would stop at replaced by null. */
  function Scrub(how: Search, s: seq<Ptr>, p: Ptr): (r: seq<Ptr>)
    ensures |r| == |s|
  {
    seq(|s|, i requires 0 <= i < |s| => if Hit(how, p, s[i]) then NULL else s[i])
  }

  /** What `iVectorClear` calls the destroy callback with, from place i on. */
  function Cleared(how: Search, s: seq<Ptr>, i: nat): seq<Ptr>
    requires i <= |s|
    decreases |s| - i
  {
    if i == |s| then []
    else if s[i] == NULL then Cleared(how, s, i + 1)
    else [s[i]] + Cleared(how, Scrub(how, s[i := NULL], s[i]), i + 1)
  }

  // ---------------------------------------------------------------- clearing destroys everything once

  /** Every distinct pointer of s is in the log exactly once, and nothing else is. */
  ghost predicate OnceEach(log: seq<Ptr>, s: seq<Ptr>) {
    forall p: Ptr :: multiset(log)[p] == if p != NULL && p in s then 1 else 0
  }

  /** The search finds a pointer by itself, and finds nothing else by it. */
  ghost predicate FindsItself(how: Search) {
    forall p, q :: p != NULL && q != NULL ==> (Hit(how, p, q) <==> p == q)
  }

  /** While the search finds just the pointer itself, clearing from place i on destroys each of the pointers left once. */
  lemma {:induction false} ClearedOnce(how: Search, s: seq<Ptr>, i: nat)
    requires FindsItself(how) && i <= |s|
    requires forall j :: 0 <= j < i ==> s[j] == NULL
    ensures OnceEach(Cleared(how, s, i), s)
    decreases |s| - i
  {
    hide Hit;
    if i == |s| {
      assert forall p: Ptr :: p in s ==> p == NULL;
    } else if s[i] == NULL {
      ClearedOnce(how, s, i + 1);
    } else {
      var p := s[i];
      var r := Scrub(how, s[i := NULL], p);
      ScrubIs(how, s, i);
      ClearedOnce(how, r, i + 1);
      OncePlus(Cleared(how, r, i + 1), r, s, p);
    }
  }

  lemma ScrubIs(how: Search, s: seq<Ptr>, i: nat)
    requires FindsItself(how) && i < |s| && s[i] != NULL
    ensures var r := Scrub(how, s[i := NULL], s[i]);
      forall j :: 0 <= j < |s| ==> r[j] == if s[j] == s[i] then NULL else s[j]
  {
    hide FindsItself;
    var r := Scrub(how, s[i := NULL], s[i]);
    forall j | 0 <= j < |s|
      ensures r[j] == if s[j] == s[i] then NULL else s[j]
    {
      HitIs(how, s[i], s[j]);
    }
  }

  lemma HitIs(how: Search, p: Ptr, q: Ptr)
    requires FindsItself(how) && p != NULL
    ensures Hit(how, p, q) <==> p == q
  {}

  lemma OncePlus(log: seq<Ptr>, r: seq<Ptr>, s: seq<Ptr>, p: Ptr)
    requires p != NULL && p in s && |r| == |s| && OnceEach(log, r)
    requires forall j :: 0 <= j < |s| ==> r[j] == if s[j] == p then NULL else s[j]
    ensures OnceEach([p] + log, s)
  {
    assert multiset([p] + log) == multiset{p} + multiset(log);
    forall q: Ptr
      ensures multiset([p] + log)[q] == if q != NULL && q in s then 1 else 0
    {
      if q != NULL {
        if q in r {
          var j :| 0 <= j < |r| && r[j] == q;
          assert s[j] == q;
        }
        if q in s && q != p {
          var j :| 0 <= j < |s| && s[j] == q;
          assert r[j] == q;
        }
      }
    }
  }

  /** The pointers among the first n that are not null and that no earlier one of these was taken for. */
  function Survivors(how: Search, s: seq<Ptr>, n: nat): (t: seq<Ptr>)
    requires n <= |s|
  {
    if n == 0 then []
    else
      var t := Survivors(how, s, n - 1);
      if s[n - 1] != NULL && !Taken(how, t, s[n - 1]) then t + [s[n - 1]] else t
  }

  /** Whether a search for one of the pointers t stops at q. */
  predicate Taken(how: Search, t: seq<Ptr>, q: Ptr) {
    exists i :: 0 <= i < |t| && Hit(how, t[i], q)
  }

  /** What is left of s when its first i places have been dealt with. */
  ghost predicate Rest(how: Search, s: seq<Ptr>, r: seq<Ptr>, i: nat) {
    && |r| == |s| && i <= |s|
    && forall j :: 0 <= j < |s| ==> r[j] == if j < i || Taken(how, Survivors(how, s, i), s[j]) then NULL else s[j]
  }

  lemma TakenSnoc(how: Search, t: seq<Ptr>, p: Ptr, q: Ptr)
    ensures Taken(how, t + [p], q) <==> Taken(how, t, q) || Hit(how, p, q)
  {
    hide Hit;
    var u := t + [p];
    assert u[|t|] == p && forall i :: 0 <= i < |t| ==> u[i] == t[i];
  }

  lemma RestNext(how: Search, s: seq<Ptr>, r: seq<Ptr>, i: nat)
    requires Rest(how, s, r, i) && i < |s|
    ensures r[i] == NULL ==> Rest(how, s, r, i + 1) && Survivors(how, s, i + 1) == Survivors(how, s, i)
    ensures r[i] != NULL ==>
      Rest(how, s, Scrub(how, r[i := NULL], r[i]), i + 1) && Survivors(how, s, i + 1) == Survivors(how, s, i) + [r[i]]
  {
    hide Hit, Taken;
    var t := Survivors(how, s, i);
    if r[i] != NULL {
      NullNotHit(how, r[i]);
      var u := Scrub(how, r[i := NULL], r[i]);
      forall j | 0 <= j < |s|
        ensures u[j] == if j < i + 1 || Taken(how, t + [r[i]], s[j]) then NULL else s[j]
      {
        TakenSnoc(how, t, r[i], s[j]);
      }
    }
  }

  lemma {:induction false} ClearedRest(how: Search, s: seq<Ptr>, r: seq<Ptr>, i: nat)
    requires Rest(how, s, r, i)
    ensures Survivors(how, s, i) + Cleared(how, r, i) == Survivors(how, s, |s|)
    decreases |s| - i
  {
    hide Hit, Taken, Rest, Survivors, Scrub;
    RestSized(how, s, r, i);
    if i < |s| {
      RestNext(how, s, r, i);
      if r[i] == NULL {
        ClearedRest(how, s, r, i + 1);
      } else {
        ClearedRest(how, s, Scrub(how, r[i := NULL], r[i]), i + 1);
      }
    }
  }

  lemma RestSized(how: Search, s: seq<Ptr>, r: seq<Ptr>, i: nat)
    requires Rest(how, s, r, i)
    ensures |r| == |s| && i <= |s|
  {}

  /** Whatever the search compares: a pointer is destroyed unless it is null or was taken for an earlier one that was. */
  lemma ClearedAre(how: Search, s: seq<Ptr>)
    ensures Cleared(how, s, 0) == Survivors(how, s, |s|)
  {
    hide Cleared, Hit;
    assert Survivors(how, s, 0) == [];
    ClearedRest(how, s, s, 0);
  }

  /** The distinct pointers among the first n, each at the place where it first stands. */
  function Firsts(s: seq<Ptr>, n: nat): seq<Ptr>
    requires n <= |s|
  {
    if n == 0 then []
    else Firsts(s, n - 1) + if s[n - 1] != NULL && s[n - 1] !in s[..n - 1] then [s[n - 1]] else []
  }

  /** What is left of s when its first i places, and all copies of their pointers, have been nulled. */
  ghost predicate LeftOf(s: seq<Ptr>, r: seq<Ptr>, i: nat) {
    |r| == |s| && i <= |s| && forall j :: 0 <= j < |s| ==> r[j] == if j < i || s[j] in s[..i] then NULL else s[j]
  }

  lemma {:induction false} ClearedFrom(how: Search, s: seq<Ptr>, r: seq<Ptr>, i: nat)
    requires FindsItself(how) && LeftOf(s, r, i)
    ensures Firsts(s, i) + Cleared(how, r, i) == Firsts(s, |s|)
    decreases |s| - i
  {
    hide Hit, FindsItself;
    if i < |s| {
      assert s[..i + 1] == s[..i] + [s[i]];
      if r[i] == NULL {
        ClearedFrom(how, s, r, i + 1);
      } else {
        ScrubIs(how, r, i);
        var t := Scrub(how, r[i := NULL], r[i]);
        ClearedFrom(how, s, t, i + 1);
      }
    }
  }

  /** When the search compares pointers, they are destroyed in the order in which they first stand in the vector. */
  lemma ClearedInOrder(how: Search, s: seq<Ptr>)
    requires FindsItself(how)
    ensures Cleared(how, s, 0) == Firsts(s, |s|)
  {
    hide FindsItself, Cleared;
    ClearedFrom(how, s, s, 0);
  }

  /** A search by the pointers themselves finds just them; one without callbacks finds nothing. */
  lemma SearchByPointer(k: Ptr, q: Ptr, key: Option<Ptr -> Ptr>, compare: Option<(Ptr, Ptr) -> int>)
    ensures FindsItself(Search(Some((p: Ptr) => p), Some((a: Ptr, b: Ptr) => a - b)))
    ensures !Hit(Search(None, compare), k, q) && !Hit(Search(key, None), k, q)
  {}

  /** If clearing a vector of two pointers is right, the search tells them apart exactly when they differ. */
  lemma PairTells(how: Search, p: Ptr, q: Ptr)
    requires p != NULL && q != NULL && OnceEach(Cleared(how, [p, q], 0), [p, q])
    ensures Hit(how, p, q) <==> p == q
  {
    hide Hit, OnceEach;
    ClearedPair(how, p, q);
    PairLogs(p, q);
  }

  ghost predicate ClearsAll(how: Search) {
    forall s: seq<Ptr> :: OnceEach(Cleared(how, s, 0), s)
  }

  /**
   Clearing destroys each distinct pointer exactly once, whatever the vector holds, exactly when the
   search callbacks compare the pointers themselves.  Without search callbacks in particular a pointer
   held twice is destroyed twice.
   */
  lemma ClearingIff(how: Search)
    ensures ClearsAll(how) <==> FindsItself(how)
  {
    hide Hit, OnceEach;
    if FindsItself(how) {
      forall s: seq<Ptr>
        ensures OnceEach(Cleared(how, s, 0), s)
      {
        ClearedOnce(how, s, 0);
      }
      assert ClearsAll(how);
    }
    if ClearsAll(how) {
      forall p, q | p != NULL && q != NULL
        ensures Hit(how, p, q) <==> p == q
      {
        assert OnceEach(Cleared(how, [p, q], 0), [p, q]);
        PairTells(how, p, q);
      }
      assert FindsItself(how);
    }
  }

  lemma ClearedPair(how: Search, p: Ptr, q: Ptr)
    requires p != NULL && q != NULL
    ensures Cleared(how, [p, q], 0) == if Hit(how, p, q) then [p] else [p, q]
  {
    hide Hit;
    NullNotHit(how, p);
    var r := Scrub(how, [p, q][0 := NULL], p);
    assert r == [NULL, if Hit(how, p, q) then NULL else q];
    var t := Scrub(how, r[1 := NULL], r[1]);
    assert Cleared(how, r, 2) == [] && Cleared(how, t, 2) == [];
    assert Cleared(how, r, 1) == if Hit(how, p, q) then [] else [q];
  }

  lemma NullNotHit(how: Search, p: Ptr)
    ensures !Hit(how, p, NULL)
  {}

  lemma PairLogs(p: Ptr, q: Ptr)
    requires p != NULL && q != NULL
    ensures p == q ==> !OnceEach([p, q], [p, q])
    ensures p != q ==> !OnceEach([p], [p, q])
  {
    assert [p, q][0] == p && [p, q][1] == q;
    assert multiset([p, q])[p] == if p == q then 2 else 1;
    assert multiset([p])[q] == if p == q then 1 else 0;
  }

  // ---------------------------------------------------------------- the vector

  class Vector {
    var data: array<Ptr>
    var size: nat
    var alloc: nat
    var growth: nat

    // The callbacks: what the k-th call of `fnew` returns, whether there is one that destroys, and the search.
    var fnew: Option<nat -> Ptr>
    var fdestroy: bool
    var search: Search

    /** The number of calls of `fnew`, and what the destroy callback was called with. */
    var created: nat
    var destroyed: seq<Ptr>

    /** The allocation is never a whole step larger than the size. */
    ghost predicate Valid()
      reads this
    {
      growth >= 1 && data.Length == alloc && 0 <= alloc - size < growth
    }

    function Contents(): (s: seq<Ptr>)
      requires Valid()
      reads this, data
      ensures |s| == size
    {
      data[..size]
    }

    /** `iVectorInit`. */
    constructor (growth: int, fnew: Option<nat -> Ptr>, fdestroy: bool)
      ensures Valid() && fresh(data) && Contents() == [] && alloc == 0
      ensures this.growth == (if growth <= 1 then 1 else growth) && this.fnew == fnew && this.fdestroy == fdestroy
      ensures search == Search(None, None) && created == 0 && destroyed == []
    {
      data := new Ptr[0];
      size, alloc, created, destroyed := 0, 0, 0, [];
      this.growth := if growth <= 1 then 1 else growth;
      this.fnew, this.fdestroy, search := fnew, fdestroy, Search(None, None);
    }

    /** `iVectorInitSearch`. */
    method InitSearch(key: Option<Ptr -> Ptr>, compare: Option<(Ptr, Ptr) -> int>)
      modifies `search
      ensures search == Search(key, compare)
    {
      search := Search(key, compare);
    }

    /** `realloc` of the data: as much of the old contents as fits. */
    method Reallocate(n: nat)
      modifies `data, `alloc
      ensures fresh(data) && data.Length == n == alloc
      ensures forall i :: 0 <= i < n && i < old(data.Length) ==> data[i] == old(data[i])
    {
      var p := new Ptr[n];
      forall i | 0 <= i < n && i < data.Length { p[i] := data[i]; }
      data, alloc := p, n;
    }

    /** The excess elements are destroyed and nulled, from the end. */
    method DestroyFrom(n: nat)
      requires n <= size <= data.Length
      modifies `destroyed, data
      ensures data[..n] == old(data[..n])
      ensures destroyed == old(destroyed) + Backwards(old(data[n..size]))
    {
      hide Backwards;
      ghost var d := data[..];
      BackwardsNone();
      assert d[n..size] == data[n..size];
      for i := size downto n
        invariant data[..i] == d[..i]
        invariant destroyed + Backwards(d[n..i]) == old(destroyed) + Backwards(d[n..size])
      {
        BackwardsStep(d, n, i, destroyed);
        assert data[..i + 1][i] == data[i];
        if data[i] != NULL {
          destroyed := destroyed + [data[i]];
          data[i] := NULL;
        }
      }
      assert d[n..n] == [];
    }

    /** New elements up to place n. */
    method CreateTo(n: nat)
      requires size <= n <= data.Length
      modifies `created, data
      ensures data[..n] == old(data[..size]) + CreatedAll(fnew, old(created), n - size)
      ensures created == old(created) + if fnew.Some? then n - size else 0
    {
      ghost var d := data[..size];
      for i := size to n
        invariant created == old(created) + if fnew.Some? then i - size else 0
        invariant data[..size] == d
        invariant forall j :: size <= j < i ==> data[j] == Created(fnew, old(created) + (j - size))
      {
        if fnew.Some? {
          data[i] := fnew.value(created);
          created := created + 1;
        } else {
          data[i] := NULL;
        }
      }
      assert data[..n] == d + CreatedAll(fnew, old(created), n - size);
    }

    /** `iVectorResize`. */
    method Resize(newSize: int) returns (r: int)
      requires Valid()
      modifies this, data
      ensures Valid() && (data == old(data) || fresh(data))
      ensures growth == old(growth) && fnew == old(fnew) && fdestroy == old(fdestroy) && search == old(search)
      ensures r == if newSize < 0 then -1 else 0
      ensures newSize < 0 || newSize == old(size) ==>
        Contents() == old(Contents()) && alloc == old(alloc) && destroyed == old(destroyed) && created == old(created)
      ensures 0 <= newSize < old(size) ==>
        && Contents() == old(Contents())[..newSize] && created == old(created)
        && destroyed == old(destroyed) + if fdestroy then Backwards(old(Contents())[newSize..]) else []
      ensures newSize > old(size) ==>
        && Contents() == old(Contents()) + CreatedAll(fnew, old(created), newSize - old(size))
        && destroyed == old(destroyed) && created == old(created) + if fnew.Some? then newSize - old(size) else 0
      ensures newSize >= 0 && newSize != old(size) ==> alloc == RoundUp(newSize, growth)
    {
      if newSize == size { return 0; }
      if newSize < 0 { return -1; }
      ghost var s := Contents();
      var newAlloc := RoundUp(newSize, growth);
      if fdestroy && newSize < size {
        assert s[newSize..] == data[newSize..size];
        DestroyFrom(newSize);
        assert data[..newSize] == s[..newSize];
      }
      if newAlloc != alloc { Reallocate(newAlloc); }
      if newSize > size {
        assert data[..size] == s;
        CreateTo(newSize);
      } else {
        assert data[..newSize] == s[..newSize];
      }
      size := newSize;
      r := 0;
    }

    /** `iVectorAppend`: an element made by `fnew` is overwritten. */
    method Append(e: Ptr) returns (r: int)
      requires Valid()
      modifies this, data
      ensures Valid() && (data == old(data) || fresh(data)) && r == 0
      ensures growth == old(growth) && fnew == old(fnew) && fdestroy == old(fdestroy) && search == old(search)
      ensures Contents() == old(Contents()) + [e] && alloc == RoundUp(size, growth)
      ensures destroyed == old(destroyed) && created == old(created) + if fnew.Some? then 1 else 0
    {
      r := Resize(size + 1);
      if r != 0 { return -1; }
      data[size - 1] := e;
      assert data[..size] == old(Contents()) + [e];
    }

    /** `iVectorRemove`. */
    method Remove(index: int) returns (r: int)
      requires Valid()
      modifies this, data
      ensures Valid() && (data == old(data) || fresh(data)) && created == old(created)
      ensures growth == old(growth) && fnew == old(fnew) && fdestroy == old(fdestroy) && search == old(search)
      ensures r == if 0 <= index < old(size) then 0 else -1
      ensures r == -1 ==> Contents() == old(Contents()) && alloc == old(alloc) && destroyed == old(destroyed)
      ensures r == 0 ==>
        && Contents() == old(Contents())[..index] + old(Contents())[index + 1..]
        && destroyed == old(destroyed) + (if fdestroy then Backwards([old(Contents())[index]]) else [])
        && alloc == if old(alloc) - size >= growth then size else old(alloc)
    {
      if !(0 <= index < size) { return -1; }
      ghost var s := Contents();
      if fdestroy && data[index] != NULL {
        destroyed := destroyed + [data[index]];
        assert Backwards([s[index]]) == [s[index]];
      }
      if size > 1 {
        forall i | index <= i < size - 1 { data[i] := data[i + 1]; }
      }
      size := size - 1;
      assert data[..size] == s[..index] + s[index + 1..];
      if alloc - size >= growth { Reallocate(size); }
      assert data[..size] == s[..index] + s[index + 1..];
      r := 0;
    }

    /** Place i is the first at which a search for k stops. */
    ghost predicate FirstHit(k: Ptr, i: nat)
      requires Valid() && i < size
      reads this, data
    {
      Hit(search, k, Contents()[i]) && forall j :: 0 <= j < i ==> !Hit(search, k, Contents()[j])
    }

    /** `iVectorFindFirstIndex`. */
    method FindFirstIndex(k: Ptr) returns (index: int)
      requires Valid()
      ensures -1 <= index < size
      ensures index == -1 <==> forall i :: 0 <= i < size ==> !Hit(search, k, Contents()[i])
      ensures index >= 0 ==> FirstHit(k, index)
      ensures index >= 0 ==>
        && search.key.Some? && search.compare.Some? && Contents()[index] != NULL
        && search.compare.value(k, search.key.value(Contents()[index])) == 0
      ensures search.key.Some? && search.compare.Some? ==>
        forall i :: 0 <= i < size && (index == -1 || i < index) && Contents()[i] != NULL ==>
          search.compare.value(k, search.key.value(Contents()[i])) != 0
    {
      if search.key.Some? && search.compare.Some? {
        for i := 0 to size
          invariant forall j :: 0 <= j < i ==> !Hit(search, k, Contents()[j])
        {
          var p := data[i];
          if p != NULL {
            if search.compare.value(k, search.key.value(p)) == 0 {
              assert Hit(search, k, Contents()[i]);
              return i;
            }
          }
        }
      }
      index := -1;
    }

    /** `pvVectorFindFirst`. */
    method FindFirst(k: Ptr) returns (p: Ptr)
      requires Valid()
      ensures p == NULL <==> forall i :: 0 <= i < size ==> !Hit(search, k, Contents()[i])
      ensures p != NULL ==> exists i :: 0 <= i < size && FirstHit(k, i) && Contents()[i] == p
    {
      var i := FindFirstIndex(k);
      p := if i == -1 then NULL else data[i];
      assert i >= 0 ==> FirstHit(k, i) && Contents()[i] == p;
    }

    /** `pvVectorGet`. */
    method Get(index: int) returns (p: Ptr)
      requires Valid()
      ensures p == if 0 <= index < size then Contents()[index] else NULL
    {
      if index >= size || index < 0 { return NULL; }
      p := data[index];
    }

    /**
     `iVectorReplace`.  The index may be the size: then the write goes into the excess allocation and the
     vector does not change, and there is no such place when the allocation is used up.
     */
    method Replace(index: int, e: Ptr) returns (r: int)
      requires Valid() && (index == size ==> size < alloc)
      modifies data
      ensures Valid() && r == if 0 <= index <= size then 0 else -1
      ensures Contents() == if 0 <= index < size then old(Contents())[index := e] else old(Contents())
    {
      if index < 0 || index > size { return -1; }
      data[index] := e;
      r := 0;
    }

    /** The copies of a destroyed pointer are marked as free: whatever a search for it finds. */
    method NullCopies(p: Ptr)
      requires Valid()
      modifies data
      ensures Valid() && Contents() == Scrub(search, old(Contents()), p)
    {
      hide Hit;
      ghost var s := Contents();
      NullNotHit(search, p);
      var dup := FindFirstIndex(p);
      ghost var lo := 0;
      while dup != -1
        invariant -1 <= dup < size && 0 <= lo <= size && (dup != -1 ==> lo <= dup)
        invariant dup == -1 <==> forall i :: 0 <= i < size ==> !Hit(search, p, Contents()[i])
        invariant dup != -1 ==> FirstHit(p, dup)
        invariant forall i :: 0 <= i < lo ==> !Hit(search, p, Contents()[i])
        invariant forall i :: 0 <= i < size ==> Contents()[i] == s[i] || (Contents()[i] == NULL && Hit(search, p, s[i]))
        decreases size - lo
      {
        ghost var c := Contents();
        data[dup] := NULL;
        assert Contents() == c[dup := NULL];
        lo := dup + 1;
        dup := FindFirstIndex(p);
      }
    }

    /** `iVectorClear`. */
    method Clear() returns (r: int)
      requires Valid()
      modifies this, data
      ensures Valid() && fresh(data) && Contents() == [] && alloc == 0 && r == 0
      ensures growth == old(growth) && fnew == old(fnew) && fdestroy == old(fdestroy) && search == old(search)
      ensures destroyed == old(destroyed) + if fdestroy then Cleared(search, old(Contents()), 0) else []
    {
      hide Scrub, Hit;
      if fdestroy {
        for i := 0 to size
          invariant Valid() && data == old(data) && size == old(size)
          invariant growth == old(growth) && fnew == old(fnew) && fdestroy == old(fdestroy) && search == old(search)
          invariant destroyed + Cleared(search, Contents(), i) == old(destroyed) + Cleared(search, old(Contents()), 0)
        {
          var p := data[i];
          if p != NULL {
            ghost var s := Contents();
            destroyed := destroyed + [p];
            data[i] := NULL;
            assert Contents() == s[i := NULL];
            NullCopies(p);
          }
        }
      }
      data := new Ptr[0];
      size, alloc, r := 0, 0, 0;
    }

    /** A vector whose search compares the pointers themselves has each of them destroyed once. */
    lemma ClearDestroysOnce()
      requires Valid() && FindsItself(search)
      ensures OnceEach(Cleared(search, Contents(), 0), Contents())
    {
      ClearedOnce(search, Contents(), 0);
    }
  }
}
