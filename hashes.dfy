/** Storing a parsed value under a key path: `build_hash` and `set_val`
    (lib/liquid/tag/parser.rb:147-158, 189-193), on hashes as values. A
    nested hash is a `Map` value inside its parent's slot, so "the hash that
    `build_hash` returns" is addressed by its key path. */
module Hashes {
  import opened Values

  /** The value at a key path: `None` when a key is missing or a slot on the
      way does not hold a hash. */
  function LookupPath(m: ArgMap, path: seq<Key>): Option<Value>
    requires path != []
    decreases |path|
  {
    match Lookup(m, path[0])
    case None => None
    case Some(v) =>
      if |path| == 1 then Some(v)
      else if v.Map? then LookupPath(v.entries, path[1..])
      else None
  }

  /** `slot ||= {}` followed by indexing the result: an absent, `nil` or
      `false` slot becomes an empty hash; a truthy slot that is not a hash
      cannot be indexed by a symbol, which Ruby reports by raising. */
  function Opened(slot: Option<Value>): (r: Option<ArgMap>)
    ensures r.None? <==> slot.Some? && Truthy(slot.value) && !slot.value.Map?
    ensures slot.Some? && slot.value.Map? ==> r == Some(slot.value.entries)
  {
    match slot
    case None => Some([])
    case Some(v) => if !Truthy(v) then Some([]) else if v.Map? then Some(v.entries) else None
  }

  /** `set_val`: what a slot holds after `v` is stored into it. */
  function Merged(slot: Option<Value>, v: Value): (r: Value)
    ensures slot.Some? && slot.value.List? ==> r == List(slot.value.items + [v])
    ensures slot.Some? && Truthy(slot.value) && !slot.value.List? ==> r == List([slot.value, v])
    ensures slot.None? || !Truthy(slot.value) ==> r == v
  {
    match slot
    case None => v
    case Some(held) =>
      if held.List? then List(held.items + [v])
      else if Truthy(held) then List([held, v])
      else v
  }

  /** The three statements of `set_val`, one at a time: a list gets `v`
      appended; a truthy value that is not a list is wrapped; an absent
      or falsy slot is filled with `v`. */
  lemma MergedList(slot: Option<Value>, v: Value)
    requires slot.Some? && slot.value.List?
    ensures Merged(slot, v) == List(slot.value.items + [v]) && Truthy(Merged(slot, v))
  {
  }

  lemma MergedScalar(slot: Option<Value>, v: Value)
    requires slot.Some? && Truthy(slot.value) && !slot.value.List?
    ensures Merged(slot, v) == List([slot.value, v]) && Truthy(Merged(slot, v))
  {
  }

  lemma MergedFalsy(slot: Option<Value>, v: Value)
    requires slot.None? || !Truthy(slot.value)
    ensures Merged(slot, v) == v
  {
  }

  /** `build_hash(keys)` with `prefix = keys[0...-1]`: walks down the prefix,
      turning every absent, `nil` or `false` slot into an empty hash. */
  function Vivify(m: ArgMap, prefix: seq<Key>): Result<ArgMap>
    decreases |prefix|
  {
    if prefix == [] then Ok(m)
    else
      match Opened(Lookup(m, prefix[0]))
      case None => Err(NotAHash)
      case Some(inner) =>
        Nest(m, prefix[0], Vivify(inner, prefix[1..]))
  }

  /** The parent `m` with the rebuilt hash `r` put back under `k`. */
  function Nest(m: ArgMap, k: Key, r: Result<ArgMap>): Result<ArgMap> {
    match r
    case Err(e) => Err(e)
    case Ok(sub) => Ok(Put(m, k, Map(sub)))
  }

  /** `set_val(k: path.last, v: v, hash: ...)` into the hash at the rest
      of the path; a slot on the way that is not a hash cannot be indexed. */
  function SetAt(m: ArgMap, path: seq<Key>, v: Value): Result<ArgMap>
    requires path != []
    decreases |path|
  {
    if |path| == 1 then Ok(Put(m, path[0], Merged(Lookup(m, path[0]), v)))
    else
      match Lookup(m, path[0])
      case Some(Map(inner)) => Nest(m, path[0], SetAt(inner, path[1..], v))
      case _ => Err(NotAHash)
  }

  /** The store step of `parse`: `build_hash`, then `set_val` at the path. */
  function Store(m: ArgMap, path: seq<Key>, v: Value): Result<ArgMap>
    requires path != []
  {
    match Vivify(m, path[..|path| - 1])
    case Err(e) => Err(e)
    case Ok(vivified) => SetAt(vivified, path, v)
  }

  // ----- Store one level at a time -----

  lemma {:induction false} PutPut(m: ArgMap, k: Key, a: Value, b: Value)
    ensures Put(Put(m, k, a), k, b) == Put(m, k, b)
    decreases |m|
  {
    if m != [] && m[0].0 != k {
      PutPut(m[1..], k, a, b);
      assert Put(m, k, a)[1..] == Put(m[1..], k, a);
    } else if m != [] {
      assert Put(m, k, a)[1..] == m[1..];
    }
  }

  /** Storing under a one-key path merges into the top-level slot. */
  lemma StoreTop(m: ArgMap, k: Key, v: Value)
    ensures Store(m, [k], v) == Ok(Put(m, k, Merged(Lookup(m, k), v)))
  {
    assert [k][..0] == [];
  }

  /** Storing under a longer path opens the first slot and stores the rest
      of the path into the hash found there. */
  lemma StoreStep(m: ArgMap, path: seq<Key>, v: Value)
    requires |path| >= 2
    ensures var slot := Opened(Lookup(m, path[0]));
      Store(m, path, v) ==
        if slot.None? then Err(NotAHash) else Nest(m, path[0], Store(slot.value, path[1..], v))
  {
    var prefix := path[..|path| - 1];
    assert prefix[0] == path[0];
    assert prefix[1..] == path[1..][..|path[1..]| - 1];
    match Opened(Lookup(m, path[0]))
    case None =>
    case Some(inner) =>
      match Vivify(inner, prefix[1..])
      case Err(e) =>
      case Ok(sub) =>
        var vivified := Put(m, path[0], Map(sub));
        assert Lookup(vivified, path[0]) == Some(Map(sub));
        match SetAt(sub, path[1..], v)
        case Err(e) =>
        case Ok(sub') =>
          PutPut(m, path[0], Map(sub), Map(sub'));
  }

  // ----- what Store does -----

  /** After a store the path holds the merge of its old content and `v`. */
  lemma {:induction false} StoreSets(m: ArgMap, path: seq<Key>, v: Value)
    requires path != [] && Store(m, path, v).Ok?
    ensures LookupPath(Store(m, path, v).value, path) == Some(Merged(LookupPath(m, path), v))
    decreases |path|
  {
    if |path| == 1 {
      StoreTop(m, path[0], v);
      assert path == [path[0]];
    } else {
      StoreStep(m, path, v);
      var inner := Opened(Lookup(m, path[0])).value;
      StoreSets(inner, path[1..], v);
      if Lookup(m, path[0]).Some? && Lookup(m, path[0]).value.Map? {
        assert LookupPath(m, path) == LookupPath(inner, path[1..]);
      } else {
        assert LookupPath(inner, path[1..]) == None;
      }
    }
  }

  /** Two paths that part at some key. */
  predicate Diverge(p: seq<Key>, q: seq<Key>)
    decreases |p|
  {
    p != [] && q != [] && (p[0] != q[0] || Diverge(p[1..], q[1..]))
  }

  /** A store changes nothing outside its path. */
  lemma {:induction false} StoreFrame(m: ArgMap, path: seq<Key>, v: Value, q: seq<Key>)
    requires path != [] && Store(m, path, v).Ok? && Diverge(path, q)
    ensures LookupPath(Store(m, path, v).value, q) == LookupPath(m, q)
    decreases |path|
  {
    var r := Store(m, path, v).value;
    if |path| == 1 {
      StoreTop(m, path[0], v);
    } else {
      StoreStep(m, path, v);
      if q[0] == path[0] {
        var inner := Opened(Lookup(m, path[0])).value;
        StoreFrame(inner, path[1..], v, q[1..]);
        if !(Lookup(m, path[0]).Some? && Lookup(m, path[0]).value.Map?) {
          assert LookupPath(inner, q[1..]) == None;
        }
      }
    }
  }

  /** The slot at `q` holds a truthy value that is not a hash. */
  predicate ScalarAt(m: ArgMap, q: seq<Key>)
    requires q != []
  {
    var s := LookupPath(m, q);
    s.Some? && Truthy(s.value) && !s.value.Map?
  }

  /** Some proper prefix of the path ends at a truthy non-hash. */
  predicate Blocked(m: ArgMap, path: seq<Key>) {
    exists j :: 0 < j < |path| && ScalarAt(m, path[..j])
  }

  /** A store fails exactly when a proper prefix of the path holds a truthy
      value that is not a hash; it never fails otherwise. */
  lemma {:induction false} StoreFails(m: ArgMap, path: seq<Key>, v: Value)
    requires path != []
    ensures Store(m, path, v).Err? <==> Blocked(m, path)
    decreases |path|
  {
    if |path| == 1 {
      StoreTop(m, path[0], v);
    } else {
      StoreStep(m, path, v);
      var slot := Opened(Lookup(m, path[0]));
      if slot.None? {
        assert path[..1] == [path[0]];
        assert ScalarAt(m, path[..1]);
      } else {
        StoreFails(slot.value, path[1..], v);
        BlockedStep(m, path, slot.value);
      }
    }
  }

  /** Below an opened first slot, the path is blocked exactly when the rest
      of it is blocked inside that slot. */
  lemma BlockedStep(m: ArgMap, path: seq<Key>, inner: ArgMap)
    requires |path| >= 2 && Opened(Lookup(m, path[0])) == Some(inner)
    ensures Blocked(m, path) <==> Blocked(inner, path[1..])
  {
    assert path[..1] == [path[0]];
    assert !ScalarAt(m, path[..1]);
    if Blocked(m, path) {
      var j :| 0 < j < |path| && ScalarAt(m, path[..j]);
      ScalarShift(m, path, inner, j);
      assert 0 < j - 1 < |path[1..]| && ScalarAt(inner, path[1..][..j - 1]);
    }
    if Blocked(inner, path[1..]) {
      var j :| 0 < j < |path[1..]| && ScalarAt(inner, path[1..][..j]);
      ScalarShift(m, path, inner, j + 1);
    }
  }

  /** A deeper prefix of the path, seen from the top or from inside the
      opened first slot. */
  lemma ScalarShift(m: ArgMap, path: seq<Key>, inner: ArgMap, j: nat)
    requires 1 < j < |path| && Opened(Lookup(m, path[0])) == Some(inner)
    ensures ScalarAt(m, path[..j]) == ScalarAt(inner, path[1..][..j - 1])
  {
    var slot := Lookup(m, path[0]);
    assert path[..j][0] == path[0];
    assert path[..j][1..] == path[1..][..j - 1];
    if !(slot.Some? && slot.value.Map?) {
      assert inner == [];
      assert LookupPath(inner, path[1..][..j - 1]) == None;
    }
  }

  /** The keys of the top hash keep their order; a new first key goes last. */
  lemma StoreKeys(m: ArgMap, path: seq<Key>, v: Value)
    requires path != [] && Store(m, path, v).Ok?
    ensures KeysOf(Store(m, path, v).value) ==
      if path[0] in KeysOf(m) then KeysOf(m) else KeysOf(m) + [path[0]]
  {
    if |path| == 1 {
      StoreTop(m, path[0], v);
      PutKeys(m, path[0], Merged(Lookup(m, path[0]), v));
    } else {
      StoreStep(m, path, v);
      var sub := Store(Opened(Lookup(m, path[0])).value, path[1..], v).value;
      PutKeys(m, path[0], Map(sub));
    }
  }

  /** A store never makes a top-level key occur twice. */
  lemma StoreUnique(m: ArgMap, path: seq<Key>, v: Value)
    requires path != [] && Store(m, path, v).Ok? && UniqueKeys(m)
    ensures UniqueKeys(Store(m, path, v).value)
  {
    if |path| == 1 {
      StoreTop(m, path[0], v);
      PutKeepsUnique(m, path[0], Merged(Lookup(m, path[0]), v));
    } else {
      StoreStep(m, path, v);
      var sub := Store(Opened(Lookup(m, path[0])).value, path[1..], v).value;
      PutKeepsUnique(m, path[0], Map(sub));
    }
  }

  // ----- repeated keys -----

  /** The slot after storing `vs` one by one into an empty slot. */
  function MergeAll(vs: seq<Value>): Option<Value>
    decreases |vs|
  {
    if vs == [] then None else Some(Merged(MergeAll(vs[..|vs| - 1]), vs[|vs| - 1]))
  }

  /** Storing several truthy non-list values under one key gathers them, in
      order, into a list; a single value is stored as itself. */
  lemma {:induction false} MergeAllList(vs: seq<Value>)
    requires vs != [] && forall j :: 0 <= j < |vs| ==> Truthy(vs[j]) && !vs[j].List?
    ensures MergeAll(vs) == Some(if |vs| == 1 then vs[0] else List(vs))
    decreases |vs|
  {
    if |vs| > 1 {
      var init := vs[..|vs| - 1];
      MergeAllList(init);
      if |init| == 1 {
        assert vs == [init[0], vs[1]];
      } else {
        assert init + [vs[|vs| - 1]] == vs;
      }
    }
  }

  // ----- the container `build_hash` returns -----

  /** The hash found under the key prefix `p`: `m` itself for no prefix. */
  function HashAt(m: ArgMap, p: seq<Key>): Option<ArgMap>
    decreases |p|
  {
    if p == [] then Some(m)
    else
      match Lookup(m, p[0])
      case Some(Map(inner)) => HashAt(inner, p[1..])
      case _ => None
  }

  /** `m` with the hash under the prefix `p` replaced by `h`: what changing a
      nested hash in place does to the hashes that contain it. */
  function Graft(m: ArgMap, p: seq<Key>, h: ArgMap): ArgMap
    requires HashAt(m, p).Some?
    decreases |p|
  {
    if p == [] then h
    else Put(m, p[0], Map(Graft(Lookup(m, p[0]).value.entries, p[1..], h)))
  }

  /** A successful `build_hash` leaves a hash under the whole prefix. */
  lemma {:induction false} VivifyHashAt(m: ArgMap, p: seq<Key>)
    requires Vivify(m, p).Ok?
    ensures HashAt(Vivify(m, p).value, p).Some?
    decreases |p|
  {
    if p != [] {
      var inner := Opened(Lookup(m, p[0])).value;
      VivifyHashAt(inner, p[1..]);
    }
  }

  /** `set_val` into the hash `h` found under the prefix `p` is the store at
      `p + [k]`, once the change to `h` is seen from the top hash. */
  /** `SetAtGraft` for a whole key path. */
  lemma SetAtPath(m: ArgMap, keys: seq<Key>, h: ArgMap, v: Value)
    requires keys != [] && HashAt(m, keys[..|keys| - 1]) == Some(h)
    ensures var k := keys[|keys| - 1];
      SetAt(m, keys, v) == Ok(Graft(m, keys[..|keys| - 1], Put(h, k, Merged(Lookup(h, k), v))))
  {
    var prefix, k := keys[..|keys| - 1], keys[|keys| - 1];
    SetAtGraft(m, prefix, h, k, v);
    assert prefix + [k] == keys;
  }

  lemma {:induction false} SetAtGraft(m: ArgMap, p: seq<Key>, h: ArgMap, k: Key, v: Value)
    requires HashAt(m, p) == Some(h)
    ensures SetAt(m, p + [k], v) == Ok(Graft(m, p, Put(h, k, Merged(Lookup(h, k), v))))
    decreases |p|
  {
    if p != [] {
      var inner := Lookup(m, p[0]).value.entries;
      SetAtGraft(inner, p[1..], h, k, v);
      assert (p + [k])[0] == p[0];
      assert (p + [k])[1..] == p[1..] + [k];
    }
  }

  /** The hashes `build_hash` passes on its way down the prefix `p`:
      `chain[d + 1]` is what `chain[d][p[d]] ||= {}` yields. */
  ghost predicate Descent(chain: seq<ArgMap>, p: seq<Key>, j: nat) {
    j <= |p| && |chain| == j + 1 &&
    forall d :: 0 <= d < j ==> Opened(Lookup(chain[d], p[d])) == Some(chain[d + 1])
  }

  /** A slot on the way down that cannot be opened fails the whole walk. */
  lemma {:induction false} DescentFails(chain: seq<ArgMap>, p: seq<Key>, j: nat, d: nat)
    requires Descent(chain, p, j) && j < |p| && Opened(Lookup(chain[j], p[j])).None? && d <= j
    ensures Vivify(chain[d], p[d..]) == Err(NotAHash)
    decreases j - d
  {
    if d < j {
      DescentFails(chain, p, j, d + 1);
      assert p[d..][1..] == p[d + 1..];
    }
  }

  /** One step back up: the parent with its rebuilt child put back. */
  lemma DescentRebuilds(chain: seq<ArgMap>, p: seq<Key>, d: nat, sub: ArgMap)
    requires Descent(chain, p, |p|) && 0 < d <= |p|
    requires Vivify(chain[d], p[d..]) == Ok(sub) && HashAt(sub, p[d..]) == Some(chain[|p|])
    ensures Vivify(chain[d - 1], p[d - 1..]) == Ok(Put(chain[d - 1], p[d - 1], Map(sub)))
    ensures HashAt(Put(chain[d - 1], p[d - 1], Map(sub)), p[d - 1..]) == Some(chain[|p|])
  {
    assert p[d - 1..][1..] == p[d..];
  }
}
