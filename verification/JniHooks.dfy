/**
 Swapping the native methods of a class with those of an array, in place: the array then holds what
 the class held before, so doing it again undoes it.
 */
module JniHooks {
  type Ptr = nat

  const NULL: Ptr := 0

  datatype Key = Key(name: string, signature: string)

  datatype NativeMethod = NativeMethod(key: Key, fnPtr: Ptr)

  /** A method of the class; `data` is where calls of a native method go. */
  datatype Method = Method(isStatic: bool, isNative: bool, data: Ptr)

  type Table = map<Key, Method>

  predicate HasInstance(t: Table, k: Key) {
    k in t && !t[k].isStatic
  }

  predicate HasStatic(t: Table, k: Key) {
    k in t && t[k].isStatic
  }

  /** An entry that gets swapped: it has a function and names a native method of the class. */
  predicate Hookable(t: Table, m: NativeMethod) {
    m.fnPtr != NULL && m.key in t && t[m.key].isNative
  }

  function SwappedEntry(t: Table, m: NativeMethod): NativeMethod {
    m.(fnPtr := if Hookable(t, m) then t[m.key].data else NULL)
  }

  /** The array afterwards. */
  function Swapped(t: Table, ms: seq<NativeMethod>): (r: seq<NativeMethod>)
    ensures |r| == |ms|
  {
    seq(|ms|, i requires 0 <= i < |ms| => SwappedEntry(t, ms[i]))
  }

  /** The entries that get swapped, in array order. */
  function Hooks(t: Table, ms: seq<NativeMethod>): (r: seq<NativeMethod>)
    ensures forall h <- r :: h.key in t
  {
    if ms == [] then []
    else
      var n := |ms| - 1;
      Hooks(t, ms[..n]) + if Hookable(t, ms[n]) then [ms[n]] else []
  }

  function Registering(t: Table, m: NativeMethod): Table {
    if m.key in t then t[m.key := t[m.key].(data := m.fnPtr)] else t
  }

  /** The table once each of the methods was registered, in order. */
  function Registered(t: Table, hooks: seq<NativeMethod>): (r: Table)
    ensures r.Keys == t.Keys
  {
    if hooks == [] then t else Registering(Registered(t, hooks[..|hooks| - 1]), hooks[|hooks| - 1])
  }

  /** A class whose methods can be looked up and registered. */
  class JavaClass {
    var table: Table

    constructor (t: Table)
      ensures table == t
    {
      table := t;
    }

    method RegisterNatives(hooks: seq<NativeMethod>)
      modifies this
      ensures table == Registered(old(table), hooks)
    {
      for i := 0 to |hooks|
        invariant table == Registered(old(table), hooks[..i])
      {
        assert hooks[..i + 1][..i] == hooks[..i];
        table := Registering(table, hooks[i]);
      }
      assert hooks[..|hooks|] == hooks;
    }
  }

  /** One entry: what it becomes, and whether the method it names is to be registered with it. */
  method SwapEntry(clazz: JavaClass, native: NativeMethod) returns (entry: NativeMethod, hook: bool)
    ensures entry == SwappedEntry(clazz.table, native) && hook == Hookable(clazz.table, native)
  {
    if native.fnPtr == NULL {
      return native, false;
    }
    var resolved := HasInstance(clazz.table, native.key);
    if !resolved {
      resolved := HasStatic(clazz.table, native.key);
    }
    if !resolved {
      return native.(fnPtr := NULL), false;
    }
    var target := clazz.table[native.key];
    if !target.isNative {
      return native.(fnPtr := NULL), false;
    }
    return native.(fnPtr := target.data), true;
  }

  method SwapEntries(clazz: JavaClass, methods: array<NativeMethod>) returns (hooks: seq<NativeMethod>)
    modifies methods
    ensures methods[..] == Swapped(clazz.table, old(methods[..])) && hooks == Hooks(clazz.table, old(methods[..]))
  {
    ghost var t, ms := clazz.table, methods[..];
    hooks := [];
    for i := 0 to methods.Length
      invariant methods[..i] == Swapped(t, ms)[..i] && methods[i..] == ms[i..]
      invariant hooks == Hooks(t, ms[..i])
    {
      assert methods[i] == ms[i] && ms[..i + 1][..i] == ms[..i] && ms[..i + 1][i] == ms[i];
      var entry, hook := SwapEntry(clazz, methods[i]);
      if hook {
        hooks := hooks + [methods[i]];
      }
      methods[i] := entry;
    }
    assert ms[..methods.Length] == ms;
  }

  /** `found` is whether the class with that name exists. */
  method HookJniMethods(found: bool, clazz: JavaClass, methods: array<NativeMethod>)
    modifies clazz, methods
    ensures var t, ms := old(clazz.table), old(methods[..]);
            && methods[..] == Swapped(if found then t else map[], ms)
            && clazz.table == if found then Registered(t, Hooks(t, ms)) else t
    ensures found ==> Exchanged(old(clazz.table), old(methods[..]), clazz.table, methods[..])
  {
    ghost var ms := methods[..];
    if !found {
      for i := 0 to methods.Length
        modifies methods
        invariant methods[..i] == Swapped(map[], ms)[..i] && methods[i..] == ms[i..]
        invariant clazz.table == old(clazz.table)
      {
        methods[i] := methods[i].(fnPtr := NULL);
      }
      return;
    }
    ghost var t := clazz.table;
    var hooks := SwapEntries(clazz, methods);
    if hooks != [] {
      clazz.RegisterNatives(hooks);
    }
    SwapIsExchange(t, ms);
  }

  /** What a swap is for: an entry with a function that names a native method of the class, static or
      not, trades places with it, the last one if there are several; any other entry is emptied, and
      any other method is left alone. */
  ghost predicate Exchanged(t: Table, ms: seq<NativeMethod>, t': Table, ms': seq<NativeMethod>) {
    && t'.Keys == t.Keys && |ms'| == |ms|
    && (forall k :: k in t ==> Leads(t[k], ms, k, t'[k]))
    && forall i :: 0 <= i < |ms| ==>
         && ms'[i].key == ms[i].key
         && ms'[i].fnPtr == if ms[i].fnPtr != 0 && ms[i].key in t && t[ms[i].key].isNative then t[ms[i].key].data else 0
  }

  ghost predicate Leads(before: Method, ms: seq<NativeMethod>, k: Key, after: Method) {
    && after.isStatic == before.isStatic && after.isNative == before.isNative
    && if before.isNative && exists i :: Names(ms, i, k) then
         exists i :: Names(ms, i, k) && ms[i].fnPtr == after.data && forall j :: j > i ==> !Names(ms, j, k)
       else after.data == before.data
  }

  predicate Names(ms: seq<NativeMethod>, i: int, k: Key) {
    0 <= i < |ms| && ms[i].key == k && ms[i].fnPtr != 0
  }

  lemma SwapIsExchange(t: Table, ms: seq<NativeMethod>)
    ensures Exchanged(t, ms, Registered(t, Hooks(t, ms)), Swapped(t, ms))
  {
    var u := Registered(t, Hooks(t, ms));
    forall k | k in t
      ensures Leads(t[k], ms, k, u[k])
    {
      RegisteredIs(t, ms, k);
      FinalIs(t, ms, k);
      assert forall i :: t[k].isNative ==> (Names(ms, i, k) <==> 0 <= i < |ms| && Hookable(t, ms[i]) && ms[i].key == k);
    }
  }

  // ---------- twice is nothing ----------

  /** Where calls of k go after the swap: to the last entry for it, if there is one. */
  function Final(t: Table, ms: seq<NativeMethod>, k: Key): Ptr
    requires k in t
  {
    if ms == [] then t[k].data
    else
      var n := |ms| - 1;
      if Hookable(t, ms[n]) && ms[n].key == k then ms[n].fnPtr else Final(t, ms[..n], k)
  }

  predicate Touched(t: Table, ms: seq<NativeMethod>, k: Key) {
    exists i :: 0 <= i < |ms| && Hookable(t, ms[i]) && ms[i].key == k
  }

  lemma RegisteredSnoc(t: Table, hooks: seq<NativeMethod>, m: NativeMethod)
    ensures Registered(t, hooks + [m]) == Registering(Registered(t, hooks), m)
  {
    assert (hooks + [m])[..|hooks|] == hooks;
  }

  /** What the swap does to each method of the class. */
  lemma {:induction false} RegisteredIs(t: Table, ms: seq<NativeMethod>, k: Key)
    requires k in t
    ensures Registered(t, Hooks(t, ms))[k] == t[k].(data := Final(t, ms, k))
  {
    if ms != [] {
      var n := |ms| - 1;
      RegisteredIs(t, ms[..n], k);
      if Hookable(t, ms[n]) {
        RegisteredSnoc(t, Hooks(t, ms[..n]), ms[n]);
      } else {
        assert Hooks(t, ms[..n]) + [] == Hooks(t, ms[..n]);
      }
    }
  }

  /** An entry for a method leads to it, and never to nothing; other methods keep their function. */
  lemma {:induction false} FinalIs(t: Table, ms: seq<NativeMethod>, k: Key)
    requires k in t
    ensures !Touched(t, ms, k) ==> Final(t, ms, k) == t[k].data
    ensures Touched(t, ms, k) ==> Final(t, ms, k) != NULL
    ensures Touched(t, ms, k) ==>
              exists i :: 0 <= i < |ms| && Hookable(t, ms[i]) && ms[i].key == k && ms[i].fnPtr == Final(t, ms, k)
                       && forall j :: i < j < |ms| ==> !(Hookable(t, ms[j]) && ms[j].key == k)
  {
    if ms != [] {
      var n := |ms| - 1;
      if Hookable(t, ms[n]) && ms[n].key == k {
        assert ms[n].fnPtr == Final(t, ms, k);
      } else {
        var front := ms[..n];
        FinalIs(t, front, k);
        assert Touched(t, front, k) <==> Touched(t, ms, k) by {
          if i :| 0 <= i < |ms| && Hookable(t, ms[i]) && ms[i].key == k {
            assert front[i] == ms[i];
          }
        }
        if Touched(t, front, k) {
          var i :| 0 <= i < |front| && Hookable(t, front[i]) && front[i].key == k && front[i].fnPtr == Final(t, front, k)
                   && forall j :: i < j < |front| ==> !(Hookable(t, front[j]) && front[j].key == k);
          assert ms[i] == front[i] && forall j :: i < j < n ==> ms[j] == front[j];
        }
      }
    }
  }

  /** Swapping back: a touched method gets its old function, unless that was null. */
  lemma {:induction false} FinalBack(t: Table, u: Table, ms: seq<NativeMethod>, k: Key)
    requires k in t && u.Keys == t.Keys && forall j <- t :: u[j].isNative == t[j].isNative
    ensures Final(u, Swapped(t, ms), k) == if Touched(t, ms, k) && t[k].data != NULL then t[k].data else u[k].data
  {
    if ms != [] {
      var n := |ms| - 1;
      var front := ms[..n];
      assert Swapped(t, ms)[..n] == Swapped(t, front);
      FinalBack(t, u, front, k);
      if Hookable(t, ms[n]) && ms[n].key == k {
        assert Touched(t, ms, k);
        if t[k].data == NULL {
          assert !Hookable(u, Swapped(t, ms)[n]);
        }
      } else {
        assert Touched(t, front, k) <==> Touched(t, ms, k) by {
          if i :| 0 <= i < |ms| && Hookable(t, ms[i]) && ms[i].key == k {
            assert front[i] == ms[i];
          }
          if i :| 0 <= i < |front| && Hookable(t, front[i]) && front[i].key == k {
            assert ms[i] == front[i];
          }
        }
        assert !(Hookable(u, Swapped(t, ms)[n]) && Swapped(t, ms)[n].key == k);
      }
    }
  }

  /** The class after one swap, and after the second one over the array the first left behind. */
  function Once(t: Table, ms: seq<NativeMethod>): Table {
    Registered(t, Hooks(t, ms))
  }

  function Twice(t: Table, ms: seq<NativeMethod>): Table {
    Once(Once(t, ms), Swapped(t, ms))
  }

  lemma TwiceIs(t: Table, ms: seq<NativeMethod>, k: Key)
    requires k in t
    ensures Twice(t, ms).Keys == t.Keys
    ensures Twice(t, ms)[k] == t[k] <==> !(Touched(t, ms, k) && t[k].data == NULL)
  {
    var u := Once(t, ms);
    forall j | j in t ensures u[j].isNative == t[j].isNative {
      RegisteredIs(t, ms, j);
    }
    RegisteredIs(t, ms, k);
    RegisteredIs(u, Swapped(t, ms), k);
    FinalIs(t, ms, k);
    FinalBack(t, u, ms, k);
  }

  predicate OriginalsPresent(t: Table, ms: seq<NativeMethod>) {
    forall i :: 0 <= i < |ms| && Hookable(t, ms[i]) ==> t[ms[i].key].data != NULL
  }

  /** Hooking twice over the same array restores the class exactly if no method that was hooked
      had a null function before. Unresolved, non-native, null and repeated entries do not matter. */
  lemma TwiceRestoresExactly(t: Table, ms: seq<NativeMethod>)
    ensures Twice(t, ms) == t <==> OriginalsPresent(t, ms)
  {
    forall k | k in t
      ensures Twice(t, ms)[k] == t[k] <==> !(Touched(t, ms, k) && t[k].data == NULL)
    {
      TwiceIs(t, ms, k);
    }
    if Twice(t, ms) == t {
      forall i | 0 <= i < |ms| && Hookable(t, ms[i])
        ensures t[ms[i].key].data != NULL
      {
        assert Touched(t, ms, ms[i].key);
      }
    }
  }

  /** A null original is lost: the array's entry looks like one that was never hooked. */
  lemma NullOriginalIsLost(k: Key, f: Ptr)
    requires f != NULL
    ensures var t: Table := map[k := Method(false, true, NULL)];
            Twice(t, [NativeMethod(k, f)]) == t[k := t[k].(data := f)] != t
  {
    var t: Table := map[k := Method(false, true, NULL)];
    var ms := [NativeMethod(k, f)];
    assert Hookable(t, ms[0]);
    TwiceRestoresExactly(t, ms);
    var u := Once(t, ms);
    RegisteredIs(t, ms, k);
    assert ms[..0] == [];
    assert Final(t, ms, k) == f;
    RegisteredIs(u, Swapped(t, ms), k);
    FinalBack(t, u, ms, k);
    assert Twice(t, ms).Keys == t.Keys;
  }

  /** Methods no entry hooks are the same throughout. */
  lemma UntouchedStay(t: Table, ms: seq<NativeMethod>, k: Key)
    requires k in t && !Touched(t, ms, k)
    ensures Once(t, ms)[k] == t[k] && Twice(t, ms)[k] == t[k]
  {
    RegisteredIs(t, ms, k);
    FinalIs(t, ms, k);
    TwiceIs(t, ms, k);
  }

  /** While hooked, the array holds each method's old function in every entry for it; the second
      swap leaves in all of them the function calls went to meanwhile. */
  lemma ArrayHoldsOriginals(t: Table, ms: seq<NativeMethod>, i: nat)
    requires i < |ms| && Hookable(t, ms[i])
    ensures Swapped(t, ms)[i].fnPtr == t[ms[i].key].data
    ensures t[ms[i].key].data != NULL ==>
              Swapped(Once(t, ms), Swapped(t, ms))[i] == ms[i].(fnPtr := Final(t, ms, ms[i].key))
  {
    RegisteredIs(t, ms, ms[i].key);
  }

  /** When the class is missing the entries are emptied, so swapping later changes nothing. */
  lemma {:induction false} MissingClassIsHarmless(t: Table, ms: seq<NativeMethod>)
    ensures Once(t, Swapped(map[], ms)) == t
  {
    if ms != [] {
      var n := |ms| - 1;
      assert Swapped(map[], ms)[..n] == Swapped(map[], ms[..n]);
      MissingClassIsHarmless(t, ms[..n]);
      assert Hooks(t, Swapped(map[], ms[..n])) + [] == Hooks(t, Swapped(map[], ms[..n]));
    }
  }
}
