/** The values the parser produces, and the insertion-ordered hash (`@args`)
    it stores them in. Ruby hashes keep insertion order, and `to_html` emits
    entries in that order, so a hash is an association list here. */
module Values {

  datatype Option<T> = None | Some(value: T)

  /** What the Ruby code raises. */
  datatype Failure =
    | UnmatchedQuote   // ArgumentError from `shellsplit`
    | NoGsub           // NoMethodError: `unescape` calls `gsub` on a converted number
    | NotAHash         // a truthy non-hash slot is indexed by a key path

  datatype Result<T> = Ok(value: T) | Err(error: Failure)

  /** Hash keys: symbols, and `nil` (the key an empty bare word produces). */
  datatype Key = Sym(name: string) | NilKey

  /** Ruby objects found in a parsed hash. A `Float` keeps its digit text. */
  datatype Value =
    | Str(s: string)
    | Int(i: int)
    | Flt(text: string)
    | Bool(b: bool)
    | Null
    | List(items: seq<Value>)
    | Map(entries: seq<(Key, Value)>)

  type ArgMap = seq<(Key, Value)>

  const Argv1: Key := Sym("argv1")

  /** Ruby truthiness: everything but `nil` and `false`. */
  predicate Truthy(v: Value) {
    !v.Null? && v != Bool(false)
  }

  function KeysOf(m: ArgMap): (ks: seq<Key>)
    ensures |ks| == |m|
  {
    if m == [] then [] else [m[0].0] + KeysOf(m[1..])
  }

  lemma {:induction false} KeysOfAt(m: ArgMap, j: nat)
    requires j < |m|
    ensures KeysOf(m)[j] == m[j].0
  {
    if j > 0 {
      KeysOfAt(m[1..], j - 1);
    }
  }

  /** No key occurs twice, as in every Ruby hash. */
  predicate UniqueKeys(m: ArgMap) {
    m == [] || (m[0].0 !in KeysOf(m[1..]) && UniqueKeys(m[1..]))
  }

  /** `hash[k]`, with absence made explicit. */
  function Lookup(m: ArgMap, k: Key): (r: Option<Value>)
    ensures r.None? <==> k !in KeysOf(m)
    ensures r.Some? ==> (k, r.value) in m
  {
    if m == [] then None else if m[0].0 == k then Some(m[0].1) else Lookup(m[1..], k)
  }

  /** `hash[k] = v`: an existing key keeps its place, a new key goes last. */
  function Put(m: ArgMap, k: Key, v: Value): (r: ArgMap)
    ensures Lookup(r, k) == Some(v)
    ensures forall k' :: k' != k ==> Lookup(r, k') == Lookup(m, k')
  {
    if m == [] then [(k, v)]
    else if m[0].0 == k then
      var r := [(k, v)] + m[1..];
      assert r[1..] == m[1..];
      r
    else
      var t := Put(m[1..], k, v);
      var r := [m[0]] + t;
      assert r[1..] == t;
      r
  }

  /** `Put` keeps the order of the keys and appends a new one. */
  lemma {:induction false} PutKeys(m: ArgMap, k: Key, v: Value)
    ensures KeysOf(Put(m, k, v)) == if k in KeysOf(m) then KeysOf(m) else KeysOf(m) + [k]
  {
    if m != [] && m[0].0 != k {
      PutKeys(m[1..], k, v);
      assert Put(m, k, v)[1..] == Put(m[1..], k, v);
      assert KeysOf(m) == [m[0].0] + KeysOf(m[1..]);
    } else if m != [] {
      assert Put(m, k, v)[1..] == m[1..];
    }
  }

  /** Storing into a hash never makes a key occur twice. */
  lemma {:induction false} PutKeepsUnique(m: ArgMap, k: Key, v: Value)
    requires UniqueKeys(m)
    ensures UniqueKeys(Put(m, k, v))
  {
    if m != [] && m[0].0 != k {
      PutKeepsUnique(m[1..], k, v);
      PutKeys(m[1..], k, v);
      assert Put(m, k, v)[1..] == Put(m[1..], k, v);
    } else if m != [] {
      assert Put(m, k, v)[1..] == m[1..];
    }
  }

  /** In a hash whose keys are unique, `Lookup` finds every entry. */
  lemma {:induction false} LookupUnique(m: ArgMap, j: nat)
    requires UniqueKeys(m) && j < |m|
    ensures Lookup(m, m[j].0) == Some(m[j].1)
    decreases j
  {
    if j > 0 {
      assert m[j] == m[1..][j - 1];
      KeysOfAt(m[1..], j - 1);
      assert m[j].0 in KeysOf(m[1..]);
      LookupUnique(m[1..], j - 1);
    }
  }
}
