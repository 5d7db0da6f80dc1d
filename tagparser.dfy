/** `Liquid::Tag::Parser` (lib/liquid/tag/parser.rb): an object that holds
    the markup, the separator and the hash `@args`, fills the hash token by
    token while it is constructed, and projects it for HTML afterwards.

    Hashes are values here. Where Ruby changes a nested hash in place and
    every hash containing it sees the change, `BuildHash` hands back the
    nested hash and `SetVal` puts the changed hash back under its key
    prefix. */
module TagParser {
  import opened Text
  import opened Values
  import opened Escaping
  import opened ShellWords
  import opened Classify
  import opened Hashes
  import opened Parsing
  import opened Projection

  class Parser {
    /** `@raw`: the tag markup. */
    const raw: string
    /** `@sep`: the separator between a key and its value. */
    const sep: char
    /** `@args`: the parsed arguments, in insertion order. */
    var args: ArgMap

    /** Every key of the hash occurs once, as in any Ruby hash. */
    ghost predicate Valid()
      reads this
    {
      UniqueKeys(args)
    }

    /** The assignments of `initialize` (lines 55-63), before `parse`. The
        regular expressions built from the separator are the functions of
        the `Escaping` and `Classify` modules applied to `sep`. */
    constructor (raw: string, defaults: ArgMap, sep: char)
      requires UniqueKeys(defaults)
      ensures this.raw == raw && this.sep == sep && args == defaults
      ensures Valid()
    {
      this.raw := raw;
      this.sep := sep;
      args := defaults;
    }

    /** `Parser.new(raw, defaults:, sep:)` (lines 55-66): construct, then
        `parse`; what `parse` raises comes back as the error. */
    static method Create(raw: string, defaults: ArgMap, sep: char) returns (r: Result<Parser>)
      requires UniqueKeys(defaults)
      ensures r.Ok? <==> ParseArgs(raw, defaults, sep).Ok?
      ensures r.Ok? ==> fresh(r.value) && r.value.Valid()
      ensures r.Ok? ==> r.value.raw == raw && r.value.sep == sep
      ensures r.Ok? ==> r.value.args == ParseArgs(raw, defaults, sep).value
      ensures r.Err? ==> r.error == ParseArgs(raw, defaults, sep).error
    {
      var p := new Parser(raw, defaults, sep);
      var parsed := p.Parse();
      if parsed.Err? {
        return Err(parsed.error);
      }
      return Ok(p);
    }

    /** `from_shellwords` (lines 211-216): the markup with its sigils,
        `://` and live separators escaped, split into shell words. */
    method FromShellwords() returns (r: Result<seq<string>>)
      ensures r == Tokens(PreEscape(raw, sep))
    {
      r := ShellSplit(PreEscape(raw, sep));
    }

    /** `argv1` (lines 122-126): `Ok(true)` when the token became `argv1`,
        `Ok(false)` when the rule did not apply, and the error `unescape`
        raises on a number. */
    method Argv1(i: nat, k: string, v: string) returns (r: Result<bool>)
      modifies this
      ensures !Argv1Applies(i, k, v, sep) ==> r == Ok(false) && args == old(args)
      ensures Argv1Applies(i, k, v, sep) && Argv1Value(v, sep).Ok? ==>
        r == Ok(true) && args == Put(old(args), Values.Argv1, Argv1Value(v, sep).value)
      ensures Argv1Applies(i, k, v, sep) && Argv1Value(v, sep).Err? ==>
        r == Err(NoGsub) && args == old(args)
    {
      if i == 0 && k == [] && !IsBoolText(v) && NoLive(v, sep) {
        var c := ConvertText(v);
        if !c.Str? {
          return Err(NoGsub);
        }
        args := Put(args, Values.Argv1, Str(Unescape(c.s, sep)));
        return Ok(true);
      }
      return Ok(false);
    }

    /** `build_hash(keys)` (lines 147-158): walks down every key but the
        last, making each absent, `nil` or `false` slot an empty hash, and
        returns the hash reached. A truthy slot on the way that is not a
        hash cannot be indexed, which Ruby reports by raising. */
    method BuildHash(keys: seq<Key>) returns (r: Result<ArgMap>)
      requires keys != []
      modifies this
      ensures var prefix := keys[..|keys| - 1];
        r.Ok? <==> Vivify(old(args), prefix).Ok?
      ensures var prefix := keys[..|keys| - 1];
        r.Ok? ==> args == Vivify(old(args), prefix).value && HashAt(args, prefix) == Some(r.value)
      ensures var prefix := keys[..|keys| - 1];
        r.Err? ==> r.error == NotAHash && Vivify(old(args), prefix).error == NotAHash && args == old(args)
    {
      var prefix := keys[..|keys| - 1];
      // Down: chain[d + 1] is `chain[d][prefix[d]] ||= {}`.
      var chain: seq<ArgMap> := [args];
      var j := 0;
      while j < |prefix|
        invariant chain != [] && chain[0] == args
        invariant Descent(chain, prefix, j)
      {
        var slot := Opened(Lookup(chain[j], prefix[j]));
        if slot.None? {
          DescentFails(chain, prefix, j, 0);
          assert prefix[0..] == prefix;
          return Err(NotAHash);
        }
        chain := chain + [slot.value];
        j := j + 1;
      }
      // Up: every opened hash goes back into its parent's slot.
      var sub := chain[|prefix|];
      var d := |prefix|;
      assert prefix[d..] == [];
      while d > 0
        invariant 0 <= d <= |prefix|
        invariant Vivify(chain[d], prefix[d..]) == Ok(sub)
        invariant HashAt(sub, prefix[d..]) == Some(chain[|prefix|])
      {
        DescentRebuilds(chain, prefix, d, sub);
        d := d - 1;
        sub := Put(chain[d], prefix[d], Map(sub));
      }
      assert prefix[0..] == prefix;
      args := sub;
      return Ok(chain[|prefix|]);
    }

    /** `set_val(k: keys.last, v: v, hash: hash)` (lines 189-193), where
        `hash` is what `build_hash(keys)` returned: a list slot gets `v`
        appended, any other truthy slot becomes the list of its value and
        `v`, and an absent or falsy slot gets `v`. */
    method SetVal(keys: seq<Key>, v: Value, hash: ArgMap)
      requires keys != [] && HashAt(args, keys[..|keys| - 1]) == Some(hash)
      modifies this
      ensures SetAt(old(args), keys, v).Ok?
      ensures args == SetAt(old(args), keys, v).value
    {
      var k := keys[|keys| - 1];
      ghost var held := Lookup(hash, k);
      var h := hash;
      var slot := Lookup(h, k);
      if slot.Some? && slot.value.List? {
        h := Put(h, k, List(slot.value.items + [v]));
        MergedList(held, v);
      }
      slot := Lookup(h, k);
      if slot.Some? && Truthy(slot.value) && !slot.value.List? {
        assert h == hash;
        h := Put(h, k, List([slot.value, v]));
        MergedScalar(held, v);
      }
      slot := Lookup(h, k);
      if !(slot.Some? && Truthy(slot.value)) {
        assert h == hash;
        h := Put(h, k, v);
        MergedFalsy(held, v);
      }
      assert h == Put(hash, k, Merged(held, v));
      SetAtPath(args, keys, hash, v);
      args := Graft(args, keys[..|keys| - 1], h);
    }

    /** `parse` (lines 169-185): every shell word in turn either becomes
        `argv1` or is classified and stored under its key path. */
    method Parse() returns (r: Result<()>)
      requires Valid()
      modifies this
      ensures r.Ok? <==> ParseArgs(raw, old(args), sep).Ok?
      ensures r.Ok? ==> args == ParseArgs(raw, old(args), sep).value && Valid()
      ensures r.Err? ==> r.error == ParseArgs(raw, old(args), sep).error
    {
      var toks := FromShellwords();
      if toks.Err? {
        return Err(toks.error);
      }
      var ts := toks.value;
      ghost var start := args;
      var i := 0;
      assert ts[..0] == [];
      while i < |ts|
        invariant 0 <= i <= |ts|
        invariant Fold(start, ts[..i], sep) == Ok(args)
      {
        FoldPrefixStep(start, ts, i, sep);
        var done := ParseToken(i, ts[i]);
        if done.Err? {
          FoldPrefixFails(start, ts, i + 1, sep);
          return Err(done.error);
        }
        i := i + 1;
      }
      assert ts[..i] == ts;
      FoldUnique(start, ts, sep);
      return Ok(());
    }

    /** The block of `parse` (lines 171-183) for the token `t` at index
        `i`: `argv1`, or the split value unescaped, classified, typed and
        stored under the key path. */
    method ParseToken(i: nat, t: string) returns (r: Result<()>)
      modifies this
      ensures r.Ok? <==> Step(old(args), i, t, sep).Ok?
      ensures r.Ok? ==> args == Step(old(args), i, t, sep).value
      ensures r.Err? ==> r.error == Step(old(args), i, t, sep).error
    {
      var kv := RPartition(t, sep);
      var keys, val := kv.0, kv.1;
      var fired := Argv1(i, keys, val);
      if fired.Err? {
        return Err(fired.error);
      }
      if fired.value {
        return Ok(());
      }
      var u := Unescape(val, sep);
      var value: Value := Str(u);
      if IsBoolText(u) && keys == [] {
        var flipped := FlipKvBool(u);
        keys, value := flipped.0, flipped.1;
      }
      if keys == [] {
        keys, value := u, Null;
      }
      assert (keys, value) == Classified(kv.0, kv.1, sep);
      var path := KeyPath(keys);
      var hash := BuildHash(path);
      if hash.Err? {
        return Err(hash.error);
      }
      SetVal(path, Convert(value), hash.value);
      return Ok(());
    }

    /** `skippable_loop` (lines 72-76): the entries it hands to its block,
        in order. The block itself is the loop of the caller. */
    method SkippableLoop(skips: seq<Key>) returns (kept: ArgMap)
      ensures kept == Kept(args, skips)
    {
      kept := [];
      var j := 0;
      while j < |args|
        invariant 0 <= j <= |args|
        invariant kept == Kept(args[..j], skips)
      {
        var e := args[j];
        assert args[..j + 1][..j] == args[..j];
        if !SkipInHtml(e.0, e.1, skips) {
          kept := kept + [e];
        }
        j := j + 1;
      }
      assert args[..j] == args;
    }

    /** `to_html(skip:)` (lines 83-87). */
    method ToHtml(skips: seq<Key>) returns (html: string)
      ensures html == Html(args, skips)
    {
      var kept := SkippableLoop(skips);
      var parts: seq<string> := [];
      var j := 0;
      while j < |kept|
        invariant 0 <= j <= |kept|
        invariant |parts| == j
        invariant forall d :: 0 <= d < j ==> parts[d] == Render(kept[d].0, kept[d].1)
      {
        parts := parts + [Render(kept[j].0, kept[j].1)];
        j := j + 1;
      }
      assert parts == RenderAll(kept);
      html := JoinSpaces(parts);
    }

    /** `to_h(skip:, html:)` (lines 95-100): the hash itself, or a new hash
        of the entries that are shown in HTML, which for a hash with unique
        keys are exactly the kept entries in their order. */
    method ToH(skips: seq<Key>, html: bool) returns (h: ArgMap)
      requires Valid()
      ensures h == ToHash(args, skips, html)
      ensures html ==> h == Kept(args, skips)
      ensures !html ==> h == args
    {
      ToHashKept(args, skips);
      if !html {
        return args;
      }
      var kept := SkippableLoop(skips);
      h := [];
      var j := 0;
      while j < |kept|
        invariant 0 <= j <= |kept|
        invariant h == Collect(kept[..j])
      {
        CollectPrefix(kept, j);
        h := Put(h, kept[j].0, kept[j].1);
        j := j + 1;
      }
      assert kept[..j] == kept;
    }
  }
}
