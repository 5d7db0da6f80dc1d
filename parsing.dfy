/** `parse` (lib/liquid/tag/parser.rb:169-185) as a function: one step per
    token, folded left to right over the tokens of `from_shellwords` into the
    starting hash. The class in `TagParser` runs the same steps as a loop. */
module Parsing {
  import opened Text
  import opened Values
  import opened Escaping
  import opened ShellWords
  import opened Classify
  import opened Hashes

  /** The test of `argv1` (line 123): the first token, no key part, not the
      sigil pattern, and no live separator in the value. */
  predicate Argv1Applies(i: nat, keys: string, val: string, sep: char) {
    i == 0 && keys == [] && !IsBoolText(val) && NoLive(val, sep)
  }

  /** `unescape(convert(v))` (line 124): `gsub` is called on whatever
      `convert` returns, and an Integer or a Float has no `gsub`. */
  function Argv1Value(val: string, sep: char): (r: Result<Value>)
    ensures r.Ok? <==> ConvertText(val).Str?
    ensures r.Ok? ==> r.value == Str(Unescape(val, sep))
    ensures r.Err? ==> r.error == NoGsub
  {
    var c := ConvertText(val);
    if c.Str? then Ok(Str(Unescape(c.s, sep))) else Err(NoGsub)
  }

  /** Lines 174-176: the value is unescaped; a sigil word with no key part
      is flipped into a key and a boolean; any other word with no key part
      becomes a key whose value is `nil`. The key part itself is kept as
      written. */
  function Classified(keys: string, val: string, sep: char): (r: (string, Value))
  {
    var u := Unescape(val, sep);
    if IsBoolText(u) && keys == [] then FlipKvBool(u)
    else if keys == [] then (u, Null)
    else (keys, Str(u))
  }

  /** Lines 177-183 for a token that is not `argv1`. */
  function StoreToken(m: ArgMap, keys: string, val: string, sep: char): Result<ArgMap> {
    var kv := Classified(keys, val, sep);
    Store(m, KeyPath(kv.0), Convert(kv.1))
  }

  /** One token `t`, at index `i`, of the loop in `parse`. */
  function Step(m: ArgMap, i: nat, t: string, sep: char): Result<ArgMap> {
    var kv := RPartition(t, sep);
    if Argv1Applies(i, kv.0, kv.1, sep) then
      match Argv1Value(kv.1, sep)
      case Err(e) => Err(e)
      case Ok(a) => Ok(Put(m, Argv1, a))
    else StoreToken(m, kv.0, kv.1, sep)
  }

  /** The hash after the steps for `toks`, the first tokens, in order; the
      first error stops the loop. */
  function Fold(m: ArgMap, toks: seq<string>, sep: char): Result<ArgMap>
    decreases |toks|
  {
    if toks == [] then Ok(m)
    else
      match Fold(m, toks[..|toks| - 1], sep)
      case Err(e) => Err(e)
      case Ok(m') => Step(m', |toks| - 1, toks[|toks| - 1], sep)
  }

  /** `Parser.new(raw, defaults: defaults, sep: [sep]).args`, or what it
      raises. */
  function ParseArgs(raw: string, defaults: ArgMap, sep: char): Result<ArgMap> {
    match Tokens(PreEscape(raw, sep))
    case Err(e) => Err(e)
    case Ok(toks) => Fold(defaults, toks, sep)
  }

  // ----- one token -----

  /** The first token, with no live separator and not a sigil word, sets
      `argv1` to its unescaped text and stores nothing else; a first token
      that `convert` turns into a number makes `unescape` raise. */
  lemma StepArgv1(m: ArgMap, t: string, sep: char)
    requires NoLive(t, sep) && !IsBoolText(t)
    ensures ConvertText(t).Str? ==> Step(m, 0, t, sep) == Ok(Put(m, Argv1, Str(Unescape(t, sep))))
    ensures !ConvertText(t).Str? ==> Step(m, 0, t, sep) == Err(NoGsub)
  {
    RPartitionNone(t, sep);
  }

  /** No token after the first sets `argv1` by the `argv1` rule: they all go
      through `set_val`. */
  lemma StepLater(m: ArgMap, i: nat, t: string, sep: char)
    requires i > 0
    ensures Step(m, i, t, sep) == StoreToken(m, RPartition(t, sep).0, RPartition(t, sep).1, sep)
  {
  }

  /** A token `k=v` (`k` ending in a word character, no live separator in
      `v`) stores the typed, unescaped `v` under the key path of `k`, which
      is not unescaped, whatever its index. */
  lemma StepKeyValue(m: ArgMap, i: nat, k: string, v: string, sep: char)
    requires k != [] && IsWord(k[|k| - 1]) && !IsWord(sep) && NoLive(v, sep)
    ensures Step(m, i, k + [sep] + v, sep) == Store(m, KeyPath(k), ConvertText(Unescape(v, sep)))
  {
    RPartitionAt(k, v, sep);
  }

  /** A sigil word `@k` or `!k` stores `true` or `false` under the key path
      of `k`, without the sigil, also as the first token. */
  lemma StepSigil(m: ArgMap, i: nat, s: char, k: string, sep: char)
    requires s == '@' || s == '!'
    requires k != [] && KeyChars(k) && NoLive([s] + k, sep)
    ensures Step(m, i, [s] + k, sep) == Store(m, KeyPath(k), Bool(s == '@'))
  {
    var t := [s] + k;
    RPartitionNone(t, sep);
    assert t[1..] == k;
    assert BackslashFree(t) by {
      forall j | 0 <= j < |t| ensures t[j] != '\\' {
        if j > 0 {
          assert t[j] == k[j - 1] && KeyChar(k[j - 1]);
        }
      }
    }
    UnbackslashFree(t, {sep});
    UnbackslashFree(t, Specials);
    assert Unescape(t, sep) == t;
    assert IsBoolText(t);
  }

  /** A later word with no live separator and no sigil becomes a key, with
      the value `nil`. */
  lemma StepBareKey(m: ArgMap, i: nat, t: string, sep: char)
    requires i > 0 && NoLive(t, sep) && !IsBoolText(Unescape(t, sep))
    ensures Step(m, i, t, sep) == Store(m, KeyPath(Unescape(t, sep)), Null)
  {
    RPartitionNone(t, sep);
  }

  // ----- the fold -----

  /** Parsing goes token by token: the fold over `toks + [t]` is the fold
      over `toks` followed by one step at index `|toks|`. */
  lemma FoldSnoc(m: ArgMap, toks: seq<string>, t: string, sep: char)
    ensures Fold(m, toks + [t], sep) ==
      match Fold(m, toks, sep)
      case Err(e) => Err(e)
      case Ok(m') => Step(m', |toks|, t, sep)
  {
    assert (toks + [t])[..|toks|] == toks;
  }

  /** A single token is a single step. */
  lemma FoldOne(m: ArgMap, t: string, sep: char)
    ensures Fold(m, [t], sep) == Step(m, 0, t, sep)
  {
    assert [t][..0] == [];
  }

  /** Once a step fails, parsing fails: Ruby raises out of `initialize`, so
      no parser and no partial hash come back. */
  lemma {:induction false} FoldFailsOnce(m: ArgMap, toks: seq<string>, more: seq<string>, sep: char)
    requires Fold(m, toks, sep).Err?
    ensures Fold(m, toks + more, sep) == Fold(m, toks, sep)
    decreases |more|
  {
    if more == [] {
      assert toks + more == toks;
    } else {
      var init := more[..|more| - 1];
      FoldFailsOnce(m, toks, init, sep);
      assert (toks + more)[..|toks + more| - 1] == toks + init;
    }
  }

  /** The fold over one more token of `toks` is one more step. */
  lemma FoldPrefixStep(m: ArgMap, toks: seq<string>, i: nat, sep: char)
    requires i < |toks| && Fold(m, toks[..i], sep).Ok?
    ensures Fold(m, toks[..i + 1], sep) == Step(Fold(m, toks[..i], sep).value, i, toks[i], sep)
  {
    assert toks[..i + 1][..i] == toks[..i];
  }

  /** A failure on a prefix of `toks` is the failure of the whole fold. */
  lemma FoldPrefixFails(m: ArgMap, toks: seq<string>, i: nat, sep: char)
    requires i <= |toks| && Fold(m, toks[..i], sep).Err?
    ensures Fold(m, toks, sep) == Fold(m, toks[..i], sep)
  {
    FoldFailsOnce(m, toks[..i], toks[i..], sep);
    assert toks[..i] + toks[i..] == toks;
  }

  /** Every step keeps the keys of the top hash unique. */
  lemma StepUnique(m: ArgMap, i: nat, t: string, sep: char)
    requires UniqueKeys(m) && Step(m, i, t, sep).Ok?
    ensures UniqueKeys(Step(m, i, t, sep).value)
  {
    var kv := RPartition(t, sep);
    if Argv1Applies(i, kv.0, kv.1, sep) {
      PutKeepsUnique(m, Argv1, Argv1Value(kv.1, sep).value);
    } else {
      var c := Classified(kv.0, kv.1, sep);
      StoreUnique(m, KeyPath(c.0), Convert(c.1));
    }
  }

  /** Parsing keeps the keys of the hash unique. */
  lemma {:induction false} FoldUnique(m: ArgMap, toks: seq<string>, sep: char)
    requires UniqueKeys(m) && Fold(m, toks, sep).Ok?
    ensures UniqueKeys(Fold(m, toks, sep).value)
    decreases |toks|
  {
    if toks != [] {
      FoldUnique(m, toks[..|toks| - 1], sep);
      StepUnique(Fold(m, toks[..|toks| - 1], sep).value, |toks| - 1, toks[|toks| - 1], sep);
    }
  }

  /** Keys never disappear and keep their order: the hash only grows at
      its end. */
  lemma StepKeysGrow(m: ArgMap, i: nat, t: string, sep: char)
    requires Step(m, i, t, sep).Ok?
    ensures var ks := KeysOf(Step(m, i, t, sep).value);
      |ks| >= |KeysOf(m)| && ks[..|KeysOf(m)|] == KeysOf(m)
  {
    var kv := RPartition(t, sep);
    var ks := KeysOf(m);
    if Argv1Applies(i, kv.0, kv.1, sep) {
      PutKeys(m, Argv1, Argv1Value(kv.1, sep).value);
    } else {
      var c := Classified(kv.0, kv.1, sep);
      StoreKeys(m, KeyPath(c.0), Convert(c.1));
    }
    assert (ks + [Argv1])[..|ks|] == ks;
    assert forall k :: (ks + [k])[..|ks|] == ks;
  }

  // ----- tokenizing never fails without quotes -----

  /** A tag markup without quotes always tokenizes: an error can only come
      from a later step. */
  lemma ParseQuoteFree(raw: string, sep: char)
    requires '\'' !in raw && '"' !in raw
    ensures Tokens(PreEscape(raw, sep)).Ok?
  {
    var t := PreEscape(raw, sep);
    if Tokens(t).Err? {
      ErrorNeedsQuote(t, "");
      if '\'' in t {
        PreEscapeChars(raw, sep, '\'');
      } else {
        PreEscapeChars(raw, sep, '"');
      }
    }
  }

  /** An unmatched quote in the pre-escaped line fails the whole parse with
      no hash. */
  lemma ParseUnmatched(raw: string, defaults: ArgMap, sep: char)
    requires Tokens(PreEscape(raw, sep)).Err?
    ensures ParseArgs(raw, defaults, sep) == Err(UnmatchedQuote)
  {
    UnmatchedOnly(PreEscape(raw, sep), "");
  }

  /** The only error `shellsplit` raises is the unmatched quote. */
  lemma {:induction false} UnmatchedOnly(s: string, f: string)
    requires Scan(s, f).Err?
    ensures Scan(s, f).error == UnmatchedQuote
    decreases |s|
  {
    match NextMatch(s)
    case None =>
    case Some(Stray) =>
    case Some(Piece(text, n, ends)) =>
      if ends {
        UnmatchedOnly(s[n..], "");
      } else {
        UnmatchedOnly(s[n..], f + text);
      }
  }
}
