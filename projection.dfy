/** The HTML projection of the parsed hash: `skip_in_html?`, the entries
    `skippable_loop` hands to its block, and what `to_html` and `to_h` build
    from them (lib/liquid/tag/parser.rb:72-113). */
module Projection {
  import opened Text
  import opened Values

  /** `skip_in_html?` (lines 110-113): `argv1`, arrays, hashes, `false` and
      the caller's skips stay out of the HTML. */
  predicate SkipInHtml(k: Key, v: Value, skips: seq<Key>) {
    k == Argv1 || v.List? || k in skips || v.Map? || v == Bool(false)
  }

  /** The entries of `m` that `skippable_loop` yields, in order. */
  function Kept(m: ArgMap, skips: seq<Key>): (r: ArgMap)
    ensures |r| <= |m|
    decreases |m|
  {
    if m == [] then []
    else
      var last := m[|m| - 1];
      Kept(m[..|m| - 1], skips) + (if SkipInHtml(last.0, last.1, skips) then [] else [last])
  }

  /** `k.to_s` for a key: a symbol's name, and `""` for `nil`. */
  function KeyText(k: Key): string {
    match k
    case Sym(n) => n
    case NilKey => ""
  }

  /** `"#{v}"` for the values that reach the HTML. Arrays and hashes are
      always skipped and are given no text. A Float is written with the
      digits it was parsed from. */
  function ValueText(v: Value): string {
    match v
    case Str(s) => s
    case Int(i) => IntToString(i)
    case Flt(t) => t
    case Bool(b) => if b then "true" else "false"
    case Null => ""
    case List(_) => ""
    case Map(_) => ""
  }

  /** The block of `to_html` (line 85): a bare key for `true`, `k="v"`
      otherwise. */
  function Render(k: Key, v: Value): string
  {
    if v == Bool(true) then KeyText(k) else KeyText(k) + "=\"" + ValueText(v) + "\""
  }

  /** Every rendered entry starts with its key, and it is the bare key
      exactly when the value is `true`. */
  lemma RenderKey(k: Key, v: Value)
    ensures KeyText(k) <= Render(k, v)
    ensures Render(k, v) == KeyText(k) <==> v == Bool(true)
  {
    if v != Bool(true) {
      assert |Render(k, v)| > |KeyText(k)|;
    }
  }

  function RenderAll(m: ArgMap): seq<string>
  {
    seq(|m|, j requires 0 <= j < |m| => Render(m[j].0, m[j].1))
  }

  /** `parts.join(" ")`. */
  function JoinSpaces(parts: seq<string>): string
    decreases |parts|
  {
    if parts == [] then ""
    else if |parts| == 1 then parts[0]
    else JoinSpaces(parts[..|parts| - 1]) + " " + parts[|parts| - 1]
  }

  /** `to_html(skip: skips)`. */
  function Html(m: ArgMap, skips: seq<Key>): string {
    JoinSpaces(RenderAll(Kept(m, skips)))
  }

  /** `o[k] = v` for every kept entry, into a new hash. */
  function Collect(kept: ArgMap): ArgMap
    decreases |kept|
  {
    if kept == [] then []
    else Put(Collect(kept[..|kept| - 1]), kept[|kept| - 1].0, kept[|kept| - 1].1)
  }

  /** `to_h(skip: skips, html: html)`: the hash itself, or the kept entries
      gathered into a new hash. */
  function ToHash(m: ArgMap, skips: seq<Key>, html: bool): ArgMap {
    if html then Collect(Kept(m, skips)) else m
  }

  // ----- what is kept -----

  /** An entry is kept exactly when it is in the hash and is not skipped. */
  lemma {:induction false} KeptMember(m: ArgMap, skips: seq<Key>, e: (Key, Value))
    ensures e in Kept(m, skips) <==> e in m && !SkipInHtml(e.0, e.1, skips)
    decreases |m|
  {
    if m != [] {
      KeptMember(m[..|m| - 1], skips, e);
      assert m == m[..|m| - 1] + [m[|m| - 1]];
    }
  }

  /** The kept entries of two hash halves are the kept entries of each, in
      the same order: `to_html` keeps insertion order. */
  lemma {:induction false} KeptAppend(a: ArgMap, b: ArgMap, skips: seq<Key>)
    ensures Kept(a + b, skips) == Kept(a, skips) + Kept(b, skips)
    decreases |b|
  {
    if b == [] {
      assert a + b == a;
    } else {
      var init := b[..|b| - 1];
      KeptAppend(a, init, skips);
      assert (a + b)[..|a + b| - 1] == a + init;
      assert (a + b)[|a + b| - 1] == b[|b| - 1];
    }
  }

  /** Nothing that `skip_in_html?` rejects is ever yielded. */
  lemma KeptNotSkipped(m: ArgMap, skips: seq<Key>)
    ensures forall j :: 0 <= j < |Kept(m, skips)| ==> !SkipInHtml(Kept(m, skips)[j].0, Kept(m, skips)[j].1, skips)
  {
    forall j | 0 <= j < |Kept(m, skips)|
      ensures !SkipInHtml(Kept(m, skips)[j].0, Kept(m, skips)[j].1, skips)
    {
      KeptMember(m, skips, Kept(m, skips)[j]);
    }
  }

  // ----- the HTML string -----

  /** Joining two non-empty lists of parts puts one space between them. */
  lemma {:induction false} JoinSpacesAppend(a: seq<string>, b: seq<string>)
    requires a != [] && b != []
    ensures JoinSpaces(a + b) == JoinSpaces(a) + " " + JoinSpaces(b)
    decreases |b|
  {
    if |b| == 1 {
      assert (a + b)[..|a + b| - 1] == a;
    } else {
      var init := b[..|b| - 1];
      JoinSpacesAppend(a, init);
      assert (a + b)[..|a + b| - 1] == a + init;
      assert (a + b)[|a + b| - 1] == b[|b| - 1];
      assert JoinSpaces(a) + " " + (JoinSpaces(init) + " " + b[|b| - 1]) == (JoinSpaces(a) + " " + JoinSpaces(init)) + " " + b[|b| - 1];
    }
  }

  lemma RenderAllAppend(a: ArgMap, b: ArgMap)
    ensures RenderAll(a + b) == RenderAll(a) + RenderAll(b)
  {
  }

  /** The HTML of a hash split in two is the HTML of each half, one space
      between them when both contribute. */
  lemma HtmlAppend(a: ArgMap, b: ArgMap, skips: seq<Key>)
    requires Kept(a, skips) != [] && Kept(b, skips) != []
    ensures Html(a + b, skips) == Html(a, skips) + " " + Html(b, skips)
  {
    KeptAppend(a, b, skips);
    RenderAllAppend(Kept(a, skips), Kept(b, skips));
    JoinSpacesAppend(RenderAll(Kept(a, skips)), RenderAll(Kept(b, skips)));
  }

  /** A hash with nothing to show renders as the empty string. */
  lemma HtmlNothingKept(m: ArgMap, skips: seq<Key>)
    requires forall j :: 0 <= j < |m| ==> SkipInHtml(m[j].0, m[j].1, skips)
    ensures Html(m, skips) == ""
  {
    if Kept(m, skips) != [] {
      KeptMember(m, skips, Kept(m, skips)[0]);
    }
  }

  /** One kept entry renders as itself. */
  lemma HtmlSingle(k: Key, v: Value, skips: seq<Key>)
    requires !SkipInHtml(k, v, skips)
    ensures Html([(k, v)], skips) == Render(k, v)
  {
    assert [(k, v)][..0] == [];
  }

  // ----- to_h -----

  /** With unique keys, `to_h(html: true)` is exactly the kept entries, in
      order; `to_h` without `html` is the hash itself. */
  lemma ToHashKept(m: ArgMap, skips: seq<Key>)
    requires UniqueKeys(m)
    ensures ToHash(m, skips, true) == Kept(m, skips)
    ensures ToHash(m, skips, false) == m
  {
    KeptUnique(m, skips);
    CollectUnique(Kept(m, skips));
  }

  lemma {:induction false} UniqueKeysSnoc(m: ArgMap)
    requires m != []
    ensures UniqueKeys(m) <==> UniqueKeys(m[..|m| - 1]) && m[|m| - 1].0 !in KeysOf(m[..|m| - 1])
    decreases |m|
  {
    if |m| > 1 {
      UniqueKeysSnoc(m[1..]);
      assert m[1..][..|m[1..]| - 1] == m[..|m| - 1][1..];
      assert m[..|m| - 1][0] == m[0];
      KeysOfAppend(m[1..][..|m[1..]| - 1], [m[|m| - 1]]);
      assert m[1..] == m[1..][..|m[1..]| - 1] + [m[|m| - 1]];
      assert KeysOf(m[..|m| - 1]) == [m[0].0] + KeysOf(m[..|m| - 1][1..]);
    }
  }

  lemma {:induction false} KeysOfAppend(a: ArgMap, b: ArgMap)
    ensures KeysOf(a + b) == KeysOf(a) + KeysOf(b)
    decreases |a|
  {
    if a != [] {
      assert (a + b)[1..] == a[1..] + b;
      KeysOfAppend(a[1..], b);
    } else {
      assert a + b == b;
    }
  }

  lemma {:induction false} KeptKeys(m: ArgMap, skips: seq<Key>, k: Key)
    requires k in KeysOf(Kept(m, skips))
    ensures k in KeysOf(m)
    decreases |m|
  {
    if m != [] {
      var init := m[..|m| - 1];
      var last := m[|m| - 1];
      KeysOfAppend(init, [last]);
      assert m == init + [last];
      if SkipInHtml(last.0, last.1, skips) {
        assert Kept(m, skips) == Kept(init, skips) + [] == Kept(init, skips);
        KeptKeys(init, skips, k);
      } else {
        KeysOfAppend(Kept(init, skips), [last]);
        if k != last.0 {
          KeptKeys(init, skips, k);
        }
      }
    }
  }

  lemma {:induction false} KeptUnique(m: ArgMap, skips: seq<Key>)
    requires UniqueKeys(m)
    ensures UniqueKeys(Kept(m, skips))
    decreases |m|
  {
    if m != [] {
      var init := m[..|m| - 1];
      var last := m[|m| - 1];
      UniqueKeysSnoc(m);
      KeptUnique(init, skips);
      if SkipInHtml(last.0, last.1, skips) {
        assert Kept(m, skips) == Kept(init, skips) + [] == Kept(init, skips);
      } else {
        var r := Kept(m, skips);
        assert r == Kept(init, skips) + [last];
        assert r[..|r| - 1] == Kept(init, skips);
        assert last.0 !in KeysOf(Kept(init, skips)) by {
          if last.0 in KeysOf(Kept(init, skips)) {
            KeptKeys(init, skips, last.0);
          }
        }
        UniqueKeysSnoc(r);
      }
    }
  }

  lemma {:induction false} CollectUnique(kept: ArgMap)
    requires UniqueKeys(kept)
    ensures Collect(kept) == kept
    decreases |kept|
  {
    if kept != [] {
      var init := kept[..|kept| - 1];
      var last := kept[|kept| - 1];
      assert UniqueKeys(init) && last.0 !in KeysOf(init) by {
        UniqueKeysSnoc(kept);
      }
      CollectUnique(init);
      CollectSnoc(kept, init, last);
      PutAppends(init, last.0, last.1);
      LastSplit(kept);
    }
  }

  /** One more kept entry is one more `o[k] = v`. */
  lemma CollectPrefix(kept: ArgMap, j: nat)
    requires j < |kept|
    ensures Collect(kept[..j + 1]) == Put(Collect(kept[..j]), kept[j].0, kept[j].1)
  {
    assert kept[..j + 1][..j] == kept[..j];
  }

  lemma CollectSnoc(kept: ArgMap, init: ArgMap, last: (Key, Value))
    requires kept != [] && init == kept[..|kept| - 1] && last == kept[|kept| - 1] && Collect(init) == init
    ensures Collect(kept) == Put(init, last.0, last.1)
  {
  }

  /** A non-empty hash is its entries but the last, then the last. */
  lemma LastSplit(m: ArgMap)
    requires m != []
    ensures m[..|m| - 1] + [m[|m| - 1]] == m
  {
  }

  /** Storing a new key appends it. */
  lemma {:induction false} PutAppends(m: ArgMap, k: Key, v: Value)
    requires k !in KeysOf(m)
    ensures Put(m, k, v) == m + [(k, v)]
    decreases |m|
  {
    if m != [] {
      PutAppends(m[1..], k, v);
      assert m == [m[0]] + m[1..];
    }
  }
}
