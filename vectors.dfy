/** The examples of spec/tests/lib/liquid/tag/parser_spec.rb, each derived
    from the general lemmas about whole markups. */
module Vectors {
  import opened Text
  import opened Values
  import opened Escaping
  import opened ShellWords
  import opened Classify
  import opened Hashes
  import opened Parsing
  import opened Projection
  import opened Markup

  // ----- small facts the examples share -----

  lemma Unescaped(v: string, sep: char)
    requires BackslashFree(v)
    ensures Unescape(v, sep) == v
  {
    UnbackslashFree(v, {sep});
    UnbackslashFree(v, Specials);
  }

  lemma One()
    ensures NatToString(1) == "1" && ConvertText("1") == Int(1)
  {
    ConvertNat(1);
  }

  lemma Two()
    ensures NatToString(2) == "2" && ConvertText("2") == Int(2)
  {
    ConvertNat(2);
  }

  lemma Three()
    ensures NatToString(3) == "3" && ConvertText("3") == Int(3)
  {
    ConvertNat(3);
  }

  /** `k1:k2` with two word keys is a two-key path. */
  lemma TwoKeys(k1: string, k2: string)
    requires k1 != [] && k2 != []
    requires forall j :: 0 <= j < |k1| ==> IsWord(k1[j])
    requires forall j :: 0 <= j < |k2| ==> IsWord(k2[j])
    ensures KeyPath(k1 + ":" + k2) == [Sym(k1), Sym(k2)]
  {
    var segs := [k1, k2];
    assert JoinColons(segs) == k1 + ":" + k2 by {
      assert segs[..1] == [k1];
    }
    SplitKeyJoin(segs);
  }

  /** A store under a two-key path into an empty hash. */
  lemma StoreTwo(a: Key, b: Key, v: Value)
    ensures Store([], [a, b], v) == Ok([(a, Map([(b, v)]))])
  {
    StoreStep([], [a, b], v);
    assert [a, b][1..] == [b];
    StoreTop([], b, v);
  }

  /** A value word the parser takes as written. */
  predicate PlainValue(v: string, sep: char) {
    Plain(v) && NoLive(v, sep) && forall j :: 0 <= j < |v| ==> !IsSpace(v[j])
  }

  /** One `k=v` pair of bare words into an empty hash, given what its key
      path, its typed value and the store come to. */
  lemma PlainPairInto(raw: string, k: string, v: string, sep: char, path: seq<Key>, val: Value, r: ArgMap)
    requires ValidSep(sep) && !IsSpace(sep) && sep != '"' && StorableKey(k) && PlainValue(v, sep)
    requires raw == k + [sep] + v && KeyPath(k) == path && ConvertText(v) == val && Store([], path, val) == Ok(r)
    ensures ParseArgs(raw, [], sep) == Ok(r)
  {
    PlainPair([], k, v, sep);
  }

  /** A store under a one-key path into an empty hash. */
  lemma StoreOne(k: Key, v: Value)
    ensures Store([], [k], v) == Ok([(k, v)])
  {
    StoreTop([], k, v);
  }

  /** A word key is storable and is its own path. */
  lemma WordKeyPath(k: string)
    requires WordKey(k)
    ensures StorableKey(k) && KeyPath(k) == [Sym(k)]
  {
    assert NoLive(k, ':') by {
      forall p | 0 <= p < |k| ensures k[p] != ':' {
        assert IsWord(k[p]);
      }
    }
    KeyPathSingle(k);
  }

  lemma KeyA() ensures StorableKey("a") && KeyPath("a") == [Sym("a")] {
    WordKeyPath("a");
  }

  lemma KeyAB() ensures StorableKey("a:b") && KeyPath("a:b") == [Sym("a"), Sym("b")] {
    ColonKey("a", "b");
    assert "a:b" == "a" + ":" + "b";
  }

  /** The sigil word `sk`, for a word key `k`, and what it is made of. */
  lemma SigilWordFacts(s: char, k: string)
    requires (s == '@' || s == '!') && WordKey(k)
    ensures KeyChars(k) && NoLive([s] + k, '=') && KeyPath(k) == [Sym(k)]
  {
    var t := [s] + k;
    assert KeyChars(k) by {
      forall p | 0 <= p < |k| ensures KeyChar(k[p]) {
        assert IsWord(k[p]);
      }
    }
    assert NoLive(t, '=') by {
      forall p | 0 <= p < |t| ensures t[p] != '=' {
        if p > 0 {
          assert t[p] == k[p - 1] && IsWord(k[p - 1]);
        }
      }
    }
    WordKeyPath(k);
  }

  /** One `k='x'` pair into an empty hash. */
  lemma QuotedPairInto(raw: string, k: string, x: string, sep: char, path: seq<Key>, val: Value, r: ArgMap)
    requires ValidSep(sep) && !IsSpace(sep) && sep != '"' && StorableKey(k) && BackslashFree(x) && '\'' !in x
    requires raw == k + [sep] + "'" + x + "'" && KeyPath(k) == path && ConvertText(x) == val && Store([], path, val) == Ok(r)
    ensures ParseArgs(raw, [], sep) == Ok(r)
  {
    QuotedPair([], k, x, sep);
  }

  /** One `k="x"` pair into an empty hash. */
  lemma DoubleQuotedPairInto(raw: string, k: string, x: string, sep: char, path: seq<Key>, val: Value, r: ArgMap)
    requires ValidSep(sep) && !IsSpace(sep) && sep != '"' && sep != '$' && StorableKey(k) && BackslashFree(x) && '"' !in x
    requires raw == k + [sep] + "\"" + x + "\"" && KeyPath(k) == path && ConvertText(x) == val && Store([], path, val) == Ok(r)
    ensures ParseArgs(raw, [], sep) == Ok(r)
  {
    DoubleQuotedPair([], k, x, sep);
  }

  /** One sigil word into an empty hash. */
  lemma SigilInto(raw: string, s: char, k: string, sep: char, path: seq<Key>, r: ArgMap)
    requires ValidSep(sep) && !IsSpace(sep) && (s == '@' || s == '!')
    requires k != [] && KeyChars(k) && NoLive([s] + k, sep)
    requires raw == [s] + k && KeyPath(k) == path && Store([], path, Bool(s == '@')) == Ok(r)
    ensures ParseArgs(raw, [], sep) == Ok(r)
  {
    PlainSigil([], s, k, sep);
  }

  lemma KeysOne(k: Key, v: Value) ensures KeysOf([(k, v)]) == [k] {}

  lemma Entries(a: Key, u: Value, b: Key, w: Value) ensures [(a, u)] + [(b, w)] == [(a, u), (b, w)] {}

  /** A quoted first word alone, into an empty hash. */
  lemma QuotedArgv1Into(raw: string, x: string, sep: char)
    requires ValidSep(sep) && BackslashFree(x) && '\'' !in x
    requires x != [] && NewlineFree(x) && !IsDigit(x[0]) && raw == "'" + x + "'"
    ensures ParseArgs(raw, [], sep) == Ok([(Argv1, Str(x))])
  {
    QuotedArgv1Text([], x, sep);
  }

  // ----- `args` -----

  /** `//hello.world` (lines 17-19): a path-like first word is `argv1`. */
  lemma SlashesArgv1()
    ensures ParseArgs("//hello.world", [], '=') == Ok([(Argv1, Str("//hello.world"))])
  {
    PlainArgv1Text([], "//hello.world", '=');
  }

  /** `'https://hello.world'` (lines 25-27): a quoted URL is `argv1`, as
      written. */
  lemma UrlArgv1()
    ensures ParseArgs("'https://hello.world'", [], '=') == Ok([(Argv1, Str("https://hello.world"))])
  {
    UrlSplit();
    UrlText();
    QuotedArgv1Into("'https://hello.world'", "https://hello.world", '=');
  }

  lemma UrlSplit() ensures "'https://hello.world'" == "'" + "https://hello.world" + "'" {}

  lemma UrlText()
    ensures var x := "https://hello.world";
      BackslashFree(x) && '\'' !in x && x != [] && NewlineFree(x) && !IsDigit(x[0])
  {
  }

  /** `a=1` (lines 183-191): `{a: 1}`, and no `argv1`. */
  lemma PairVector()
    ensures ParseArgs("a=1", [], '=') == Ok([(Sym("a"), Int(1))])
  {
    PairVectorSplit();
    KeyA();
    One();
    OneValue();
    StoreOne(Sym("a"), Int(1));
    PlainPairInto("a=1", "a", "1", '=', [Sym("a")], Int(1), [(Sym("a"), Int(1))]);
  }

  lemma PairVectorSplit() ensures "a=1" == "a" + ['='] + "1" {}
  lemma OneValue() ensures PlainValue("1", '=') {}


  /** `a` (lines 174-181): `{argv1: "a"}`. */
  lemma WordArgv1()
    ensures ParseArgs("a", [], '=') == Ok([(Argv1, Str("a"))])
  {
    PlainArgv1Text([], "a", '=');
  }

  /** `a='b=c'` (lines 74-79): the quoted `=` is kept. */
  lemma QuotedSepValue()
    ensures ParseArgs("a='b=c'", [], '=') == Ok([(Sym("a"), Str("b=c"))])
  {
    QuotedSepSplit();
    KeyA();
    QuotedSepText();
    StoreOne(Sym("a"), Str("b=c"));
    QuotedPairInto("a='b=c'", "a", "b=c", '=', [Sym("a")], Str("b=c"), [(Sym("a"), Str("b=c"))]);
  }

  lemma QuotedSepSplit() ensures "a='b=c'" == "a" + ['='] + "'" + "b=c" + "'" {}

  lemma QuotedSepText() ensures BackslashFree("b=c") && '\'' !in "b=c" && ConvertText("b=c") == Str("b=c") {
    ConvertKeepsText("b=c");
  }


  /** `'a=b'` (lines 81-86): a quoted first word with `=` is `argv1`. */
  lemma QuotedSepArgv1()
    ensures ParseArgs("'a=b'", [], '=') == Ok([(Argv1, Str("a=b"))])
  {
    assert "'a=b'" == "'" + "a=b" + "'";
    QuotedArgv1Into("'a=b'", "a=b", '=');
  }

  /** `a="@true"` (lines 100-104): a quoted sigil is not a boolean. */
  lemma QuotedSigilValue()
    ensures ParseArgs("a=\"@true\"", [], '=') == Ok([(Sym("a"), Str("@true"))])
  {
    QuotedSigilSplit();
    KeyA();
    QuotedSigilChars();
    QuotedSigilText();
    StoreOne(Sym("a"), Str("@true"));
    DoubleQuotedPairInto("a=\"@true\"", "a", "@true", '=', [Sym("a")], Str("@true"), [(Sym("a"), Str("@true"))]);
  }

  lemma QuotedSigilSplit() ensures "a=\"@true\"" == "a" + ['='] + "\"" + "@true" + "\"" {}

  lemma QuotedSigilChars() ensures BackslashFree("@true") && '"' !in "@true" {}

  lemma QuotedSigilText() ensures ConvertText("@true") == Str("@true") {
    ConvertKeepsText("@true");
  }


  /** `@true` (lines 107-117): `{true: true}`, the sigil stripped. */
  lemma TrueSigil()
    ensures ParseArgs("@true", [], '=') == Ok([(Sym("true"), Bool(true))])
  {
    SigilWordFacts('@', "true");
    StoreOne(Sym("true"), Bool(true));
    SigilInto("@true", '@', "true", '=', [Sym("true")], [(Sym("true"), Bool(true))]);
  }


  /** `!false` (lines 130-141, 193-200): `{false: false}`, no `argv1`. */
  lemma FalseSigil()
    ensures ParseArgs("!false", [], '=') == Ok([(Sym("false"), Bool(false))])
  {
    SigilWordFacts('!', "false");
    StoreOne(Sym("false"), Bool(false));
    SigilInto("!false", '!', "false", '=', [Sym("false")], [(Sym("false"), Bool(false))]);
  }


  /** `@k1:k2` or `!k1:k2`, for two word keys: a nested boolean. */
  lemma NestedSigil(s: char, k1: string, k2: string)
    requires s == '@' || s == '!'
    requires k1 != [] && k2 != []
    requires forall j :: 0 <= j < |k1| ==> IsWord(k1[j])
    requires forall j :: 0 <= j < |k2| ==> IsWord(k2[j])
    ensures ParseArgs([s] + (k1 + ":" + k2), [], '=') == Ok([(Sym(k1), Map([(Sym(k2), Bool(s == '@'))]))])
  {
    var k := k1 + ":" + k2;
    var t := [s] + k;
    assert KeyChars(k) by {
      forall j | 0 <= j < |k| ensures KeyChar(k[j]) {
        if j < |k1| {
          assert k[j] == k1[j];
        } else if j > |k1| {
          assert k[j] == k2[j - |k1| - 1];
        }
      }
    }
    assert NoLive(t, '=') by {
      forall p | 0 <= p < |t| ensures t[p] != '=' {
        if p > 0 {
          assert t[p] == k[p - 1] && KeyChar(k[p - 1]);
        }
      }
    }
    PlainSigil([], s, k, '=');
    TwoKeys(k1, k2);
    StoreTwo(Sym(k1), Sym(k2), Bool(s == '@'));
  }

  /** `@key1:key2` (lines 119-127): a nested `true`. */
  lemma NestedTrue()
    ensures ParseArgs("@key1:key2", [], '=') == Ok([(Sym("key1"), Map([(Sym("key2"), Bool(true))]))])
  {
    assert "@key1:key2" == ['@'] + ("key1" + ":" + "key2");
    NestedSigil('@', "key1", "key2");
  }

  /** `!key1:key2` (lines 143-151): a nested `false`. */
  lemma NestedFalse()
    ensures ParseArgs("!key1:key2", [], '=') == Ok([(Sym("key1"), Map([(Sym("key2"), Bool(false))]))])
  {
    assert "!key1:key2" == ['!'] + ("key1" + ":" + "key2");
    NestedSigil('!', "key1", "key2");
  }

  /** `a:b=c` (lines 154-162): a deep hash. */
  lemma DeepHash()
    ensures ParseArgs("a:b=c", [], '=') == Ok([(Sym("a"), Map([(Sym("b"), Str("c"))]))])
  {
    DeepHashSplit();
    KeyAB();
    DeepHashText();
    StoreTwo(Sym("a"), Sym("b"), Str("c"));
    PlainPairInto("a:b=c", "a:b", "c", '=', [Sym("a"), Sym("b")], Str("c"), [(Sym("a"), Map([(Sym("b"), Str("c"))]))]);
  }


  lemma DeepHashSplit() ensures "a:b=c" == "a:b" + ['='] + "c" {}

  lemma DeepHashText() ensures PlainValue("c", '=') && ConvertText("c") == Str("c") {
    ConvertKeepsText("c");
  }

  /** `a:b:'c:d'` with the separator `:` (lines 164-172): the last live
      separator splits, and the quoted one is kept. */
  lemma CustomSeparator()
    ensures ParseArgs("a:b:'c:d'", [], ':') == Ok([(Sym("a"), Map([(Sym("b"), Str("c:d"))]))])
  {
    CustomSplit();
    KeyAB();
    CustomText();
    StoreTwo(Sym("a"), Sym("b"), Str("c:d"));
    QuotedPairInto("a:b:'c:d'", "a:b", "c:d", ':', [Sym("a"), Sym("b")], Str("c:d"), [(Sym("a"), Map([(Sym("b"), Str("c:d"))]))]);
  }

  lemma CustomSplit() ensures "a:b:'c:d'" == "a:b" + [':'] + "'" + "c:d" + "'" {}

  lemma CustomText() ensures BackslashFree("c:d") && '\'' !in "c:d" && ConvertText("c:d") == Str("c:d") {
    ConvertKeepsText("c:d");
  }


  // ----- several words -----

  /** A word the parser takes as written: no quotes, backslashes or
      blanks, and no separator. */
  predicate PlainWord(w: string) {
    w != [] && Plain(w) && NoLive(w, '=') && forall j :: 0 <= j < |w| ==> !IsSpace(w[j])
  }

  /** A first word with no sigil that does not start with a digit becomes
      `argv1`. */
  lemma FirstWordStep(m: ArgMap, w: string)
    requires PlainWord(w) && !IsBoolText(w) && !IsDigit(w[0])
    ensures Step(m, 0, w, '=') == Ok(Put(m, Argv1, Str(w)))
  {
    ConvertKeepsText(w);
    StepArgv1(m, w, '=');
    assert BackslashFree(w);
    Unescaped(w, '=');
  }

  /** A later bare word with no colon is a new key holding `nil`. */
  lemma LaterBareStep(m: ArgMap, i: nat, w: string)
    requires i > 0 && PlainWord(w) && !IsBoolText(w) && NoLive(w, ':') && Sym(w) !in KeysOf(m)
    ensures Step(m, i, w, '=') == Ok(m + [(Sym(w), Null)])
  {
    assert BackslashFree(w);
    Unescaped(w, '=');
    StepBareKey(m, i, w, '=');
    KeyPathSingle(w);
    StoreTop(m, Sym(w), Null);
    PutAppends(m, Sym(w), Null);
  }

  /** A later word `k=v`, unquoted, stores `v` under the key path of `k`. */
  lemma PairStep(m: ArgMap, i: nat, k: string, v: string)
    requires StorableKey(k) && Plain(v) && NoLive(v, '=')
    ensures Step(m, i, k + "=" + v, '=') == Store(m, KeyPath(k), ConvertText(v))
  {
    assert BackslashFree(v);
    Unescaped(v, '=');
    StepKeyValue(m, i, k, v, '=');
  }

  lemma FoldTwo(m: ArgMap, t1: string, t2: string, m1: ArgMap, m2: ArgMap)
    requires Step(m, 0, t1, '=') == Ok(m1) && Step(m1, 1, t2, '=') == Ok(m2)
    ensures Fold(m, [t1, t2], '=') == Ok(m2)
  {
    FoldOne(m, t1, '=');
    FoldSnoc(m, [t1], t2, '=');
    assert [t1] + [t2] == [t1, t2];
  }

  lemma FoldThree(m: ArgMap, t1: string, t2: string, t3: string, m2: ArgMap, m3: ArgMap)
    requires Fold(m, [t1, t2], '=') == Ok(m2) && Step(m2, 2, t3, '=') == Ok(m3)
    ensures Fold(m, [t1, t2, t3], '=') == Ok(m3)
  {
    FoldSnoc(m, [t1, t2], t3, '=');
    assert [t1, t2] + [t3] == [t1, t2, t3];
  }

  lemma FoldFour(m: ArgMap, t1: string, t2: string, t3: string, t4: string, m3: ArgMap, m4: ArgMap)
    requires Fold(m, [t1, t2, t3], '=') == Ok(m3) && Step(m3, 3, t4, '=') == Ok(m4)
    ensures Fold(m, [t1, t2, t3, t4], '=') == Ok(m4)
  {
    FoldSnoc(m, [t1, t2, t3], t4, '=');
    assert [t1, t2, t3] + [t4] == [t1, t2, t3, t4];
  }

  /** The key `k` first set to `X` and then to `Y`, for two values that
      `convert` types. */
  lemma TwiceStep(m: ArgMap, i: nat, j: nat, k: string, x: string, y: string)
    requires k != [] && (forall q :: 0 <= q < |k| ==> IsWord(k[q]))
    requires PlainWord(x) && PlainWord(y) && Sym(k) !in KeysOf(m)
    requires Truthy(ConvertText(x))
    ensures Step(m, i, k + "=" + x, '=') == Ok(m + [(Sym(k), ConvertText(x))])
    ensures Step(m + [(Sym(k), ConvertText(x))], j, k + "=" + y, '=') ==
      Ok(m + [(Sym(k), List([ConvertText(x), ConvertText(y)]))])
  {
    var K := Sym(k);
    var X, Y := ConvertText(x), ConvertText(y);
    assert StorableKey(k);
    assert NoLive(k, ':') by {
      forall p | 0 <= p < |k| ensures k[p] != ':' {
        assert IsWord(k[p]);
      }
    }
    KeyPathSingle(k);
    PairStep(m, i, k, x);
    StoreTop(m, K, X);
    PutAppends(m, K, X);
    var m1 := m + [(K, X)];
    PairStep(m1, j, k, y);
    StoreTop(m1, K, Y);
    assert Lookup(m1, K) == Some(X);
    assert !X.List?;
    PutLast(m, K, X, List([X, Y]));
  }

  /** Replacing the value of the last, new key. */
  lemma PutLast(m: ArgMap, k: Key, a: Value, b: Value)
    requires k !in KeysOf(m)
    ensures Put(m + [(k, a)], k, b) == m + [(k, b)]
  {
    PutAppends(m, k, a);
    PutPut(m, k, a, b);
    PutAppends(m, k, b);
  }

  /** A word key. */
  predicate WordKey(k: string) {
    k != [] && forall q :: 0 <= q < |k| ==> IsWord(k[q])
  }

  /** The words `k=x` and `k=y`, for a word key and two values, the first
      truthy. */
  predicate TwiceWords(k: string, x: string, y: string, t1: string, t2: string) {
    WordKey(k) && PlainWord(x) && PlainWord(y) && Truthy(ConvertText(x)) && t1 == k + "=" + x && t2 == k + "=" + y
  }

  /** The first two words `k=x k=y` make the list `[X, Y]` under `k`. */
  lemma FirstTwice(k: string, x: string, y: string, t1: string, t2: string)
    requires TwiceWords(k, x, y, t1, t2)
    ensures Fold([], [t1, t2], '=') == Ok([(Sym(k), List([ConvertText(x), ConvertText(y)]))])
  {
    var X, Y := ConvertText(x), ConvertText(y);
    assert KeysOf([]) == [];
    TwiceStep([], 0, 1, k, x, y);
    assert [] + [(Sym(k), X)] == [(Sym(k), X)];
    assert [] + [(Sym(k), List([X, Y]))] == [(Sym(k), List([X, Y]))];
    FoldTwo([], t1, t2, [(Sym(k), X)], [(Sym(k), List([X, Y]))]);
  }

  /** Two more words `k=x k=y` for a new key add the list `[X, Y]`. */
  lemma LaterTwice(m2: ArgMap, k: string, x: string, y: string, t1: string, t2: string, t3: string, t4: string)
    requires TwiceWords(k, x, y, t3, t4) && Sym(k) !in KeysOf(m2)
    requires Fold([], [t1, t2], '=') == Ok(m2)
    ensures Fold([], [t1, t2, t3, t4], '=') == Ok(m2 + [(Sym(k), List([ConvertText(x), ConvertText(y)]))])
  {
    TwiceStep(m2, 2, 3, k, x, y);
    FoldThree([], t1, t2, t3, m2, m2 + [(Sym(k), ConvertText(x))]);
    FoldFour([], t1, t2, t3, t4, m2 + [(Sym(k), ConvertText(x))], m2 + [(Sym(k), List([ConvertText(x), ConvertText(y)]))]);
  }

  /** `a=x a=y b=x b=y`: each repeated key collects its two values. */
  lemma RepeatedPairs(a: string, b: string, x: string, y: string, t1: string, t2: string, t3: string, t4: string)
    requires TwiceWords(a, x, y, t1, t2) && TwiceWords(b, x, y, t3, t4) && a != b
    ensures Fold([], [t1, t2, t3, t4], '=') ==
      Ok([(Sym(a), List([ConvertText(x), ConvertText(y)])), (Sym(b), List([ConvertText(x), ConvertText(y)]))])
  {
    var L := List([ConvertText(x), ConvertText(y)]);
    FirstTwice(a, x, y, t1, t2);
    KeysOne(Sym(a), L);
    LaterTwice([(Sym(a), L)], b, x, y, t1, t2, t3, t4);
    Entries(Sym(a), L, Sym(b), L);
  }

  /** `a=1 a=2 b=1 b=2` (lines 90-96): a repeated key collects its values in
      a list, in order. */
  lemma Lists()
    ensures ParseArgs("a=1 a=2 b=1 b=2", [], '=') ==
      Ok([(Sym("a"), List([Int(1), Int(2)])), (Sym("b"), List([Int(1), Int(2)]))])
  {
    ListsWords();
    TwiceA();
    TwiceB();
    One();
    Two();
    RepeatedPairs("a", "b", "1", "2", "a=1", "a=2", "b=1", "b=2");
  }

  lemma ListsWords()
    ensures ParseArgs("a=1 a=2 b=1 b=2", [], '=') == Fold([], ["a=1", "a=2", "b=1", "b=2"], '=')
  {
    var ws := ["a=1", "a=2", "b=1", "b=2"];
    assert "a=1 a=2 b=1 b=2" == Unwords(ws);
    PlainWords(ws, [], '=');
  }

  lemma TwiceA() ensures TwiceWords("a", "1", "2", "a=1", "a=2") {
    One();
  }

  lemma TwiceB() ensures TwiceWords("b", "1", "2", "b=1", "b=2") {
    One();
  }

  /** A first word and a later bare key. */
  lemma BareKeyFold(w1: string, w2: string)
    requires PlainWord(w1) && !IsBoolText(w1) && !IsDigit(w1[0])
    requires PlainWord(w2) && !IsBoolText(w2) && NoLive(w2, ':') && Sym(w2) != Argv1
    ensures Fold([], [w1, w2], '=') == Ok([(Argv1, Str(w1)), (Sym(w2), Null)])
  {
    var m1 := [(Argv1, Str(w1))];
    FirstWordStep([], w1);
    assert Put([], Argv1, Str(w1)) == m1;
    assert KeysOf(m1) == [Argv1];
    LaterBareStep(m1, 1, w2);
    FoldTwo([], w1, w2, m1, m1 + [(Sym(w2), Null)]);
    assert m1 + [(Sym(w2), Null)] == [(Argv1, Str(w1)), (Sym(w2), Null)];
  }

  /** `argv1 key` (lines 204-211): the first word is `argv1` and a later
      bare word is a key whose value is `nil`. */
  lemma BareKey()
    ensures ParseArgs("argv1 key", [], '=') == Ok([(Argv1, Str("argv1")), (Sym("key"), Null)])
  {
    BareKeyWords();
    BareKeyPre();
    BareKeyFold("argv1", "key");
  }

  lemma BareKeyWords()
    ensures ParseArgs("argv1 key", [], '=') == Fold([], ["argv1", "key"], '=')
  {
    assert "argv1 key" == Unwords(["argv1", "key"]);
    PlainWords(["argv1", "key"], [], '=');
  }

  lemma BareKeyPre()
    ensures PlainWord("argv1") && !IsBoolText("argv1") && !IsDigit("argv1"[0])
    ensures PlainWord("key") && !IsBoolText("key") && NoLive("key", ':') && Sym("key") != Argv1
  {
  }

  // ----- `to_html` and `to_h` -----

  /** A later `@k` for a new word key `k` appends `k: true`. */
  lemma SigilStep(m: ArgMap, i: nat, k: string)
    requires k != [] && (forall q :: 0 <= q < |k| ==> IsWord(k[q])) && Sym(k) !in KeysOf(m)
    ensures Step(m, i, "@" + k, '=') == Ok(m + [(Sym(k), Bool(true))])
  {
    assert KeyChars(k) && NoLive(k, ':') by {
      forall p | 0 <= p < |k| ensures KeyChar(k[p]) && k[p] != ':' {
        assert IsWord(k[p]);
      }
    }
    var t := ['@'] + k;
    assert NoLive(t, '=') by {
      forall p | 0 <= p < |t| ensures t[p] != '=' {
        if p > 0 {
          assert t[p] == k[p - 1];
        }
      }
    }
    StepSigil(m, i, '@', k, '=');
    KeyPathSingle(k);
    StoreTop(m, Sym(k), Bool(true));
    PutAppends(m, Sym(k), Bool(true));
    assert "@" + k == t;
  }

  /** A first word and a later `@k`. */
  lemma SigilFold(w: string, t: string, k: string)
    requires PlainWord(w) && !IsBoolText(w) && !IsDigit(w[0])
    requires k != [] && (forall q :: 0 <= q < |k| ==> IsWord(k[q])) && Sym(k) != Argv1 && t == "@" + k
    ensures Fold([], [w, t], '=') == Ok([(Argv1, Str(w)), (Sym(k), Bool(true))])
  {
    var m1 := [(Argv1, Str(w))];
    FirstWordStep([], w);
    assert Put([], Argv1, Str(w)) == m1;
    assert KeysOf(m1) == [Argv1];
    SigilStep(m1, 1, k);
    FoldTwo([], w, t, m1, m1 + [(Sym(k), Bool(true))]);
    assert m1 + [(Sym(k), Bool(true))] == [(Argv1, Str(w)), (Sym(k), Bool(true))];
  }

  /** `a @b` with `to_h(html: true)` (lines 33-39): only `b: true` is
      shown. */
  lemma HtmlHash()
    ensures ParseArgs("a @b", [], '=') == Ok([(Argv1, Str("a")), (Sym("b"), Bool(true))])
    ensures ToHash([(Argv1, Str("a")), (Sym("b"), Bool(true))], [], true) == [(Sym("b"), Bool(true))]
  {
    HtmlHashWords();
    HtmlHashPre();
    SigilFold("a", "@b", "b");
    HtmlHashKept();
  }

  lemma HtmlHashWords()
    ensures ParseArgs("a @b", [], '=') == Fold([], ["a", "@b"], '=')
  {
    assert "a @b" == Unwords(["a", "@b"]);
    PlainWords(["a", "@b"], [], '=');
  }

  lemma HtmlHashPre()
    ensures PlainWord("a") && !IsBoolText("a") && !IsDigit("a"[0])
    ensures "b" != [] && (forall q :: 0 <= q < |"b"| ==> IsWord("b"[q])) && Sym("b") != Argv1
    ensures "@b" == "@" + "b"
  {
  }

  lemma HtmlHashKept()
    ensures ToHash([(Argv1, Str("a")), (Sym("b"), Bool(true))], [], true) == [(Sym("b"), Bool(true))]
  {
    var m := [(Argv1, Str("a")), (Sym("b"), Bool(true))];
    ToHashKept(m, []);
    assert m[..1] == [(Argv1, Str("a"))] && m[..1][..0] == [];
  }

  /** `!a` (lines 41-47): a `false` is not shown. */
  lemma HtmlFalse()
    ensures ParseArgs("!a", [], '=') == Ok([(Sym("a"), Bool(false))])
    ensures Html([(Sym("a"), Bool(false))], []) == ""
  {
    SigilWordFacts('!', "a");
    StoreOne(Sym("a"), Bool(false));
    SigilInto("!a", '!', "a", '=', [Sym("a")], [(Sym("a"), Bool(false))]);
    FalseHidden(Sym("a"));
  }

  /** A `false` is never shown in HTML. */
  lemma FalseHidden(k: Key)
    ensures Html([(k, Bool(false))], []) == ""
  {
    HtmlNothingKept([(k, Bool(false))], []);
  }


  /** `a=1` (lines 57-63): `a="1"`. */
  lemma HtmlPair()
    ensures Html([(Sym("a"), Int(1))], []) == "a=\"1\""
  {
    HtmlSingle(Sym("a"), Int(1), []);
    One();
  }

  /** `a` (lines 65-71): `argv1` is not shown. */
  lemma HtmlArgv1()
    ensures Html([(Argv1, Str("a"))], []) == ""
  {
    HtmlNothingKept([(Argv1, Str("a"))], []);
  }

  /** A later word `b:c=z` for a new key `b` adds the hash `{c: Z}`. */
  lemma NestedStep(m2: ArgMap, i: nat, b: string, c: string, z: string, t: string)
    requires NestedWords(b, c, z, t) && Sym(b) !in KeysOf(m2)
    ensures Step(m2, i, t, '=') == Ok(m2 + [(Sym(b), Map([(Sym(c), ConvertText(z))]))])
  {
    var k := b + ":" + c;
    ColonKey(b, c);
    assert t == k + "=" + z;
    PairStep(m2, i, k, z);
    NestedStore(m2, Sym(b), Sym(c), ConvertText(z));
  }

  /** The word `b:c=z`, for two word keys and a value. */
  predicate NestedWords(b: string, c: string, z: string, t: string) {
    WordKey(b) && WordKey(c) && PlainWord(z) && t == b + ":" + c + "=" + z
  }

  /** `b:c`, for two word keys, is a storable key with the path `[b, c]`. */
  lemma ColonKey(b: string, c: string)
    requires WordKey(b) && WordKey(c)
    ensures StorableKey(b + ":" + c) && KeyPath(b + ":" + c) == [Sym(b), Sym(c)]
  {
    var k := b + ":" + c;
    assert StorableKey(k) by {
      assert forall q :: 0 <= q < |b| ==> k[q] == b[q];
      assert forall q :: 0 <= q < |c| ==> k[|b| + 1 + q] == c[q];
    }
    TwoKeys(b, c);
  }

  /** Storing under a two-key path whose first key is new. */
  lemma NestedStore(m: ArgMap, b: Key, c: Key, v: Value)
    requires b !in KeysOf(m)
    ensures Store(m, [b, c], v) == Ok(m + [(b, Map([(c, v)]))])
  {
    StoreStep(m, [b, c], v);
    assert [b, c][1..] == [c];
    StoreTop([], c, v);
    PutAppends(m, b, Map([(c, v)]));
  }

  lemma LaterNested(m2: ArgMap, b: string, c: string, z: string, t1: string, t2: string, t3: string)
    requires NestedWords(b, c, z, t3) && Sym(b) !in KeysOf(m2)
    requires Fold([], [t1, t2], '=') == Ok(m2)
    ensures Fold([], [t1, t2, t3], '=') == Ok(m2 + [(Sym(b), Map([(Sym(c), ConvertText(z))]))])
  {
    NestedStep(m2, 2, b, c, z, t3);
    FoldThree([], t1, t2, t3, m2, m2 + [(Sym(b), Map([(Sym(c), ConvertText(z))]))]);
  }

  /** `a=x a=y b:c=z`: a list and a nested hash. */
  lemma NestedFold(a: string, b: string, c: string, x: string, y: string, z: string, t1: string, t2: string, t3: string)
    requires TwiceWords(a, x, y, t1, t2) && NestedWords(b, c, z, t3) && a != b
    ensures Fold([], [t1, t2, t3], '=') ==
      Ok([(Sym(a), List([ConvertText(x), ConvertText(y)])), (Sym(b), Map([(Sym(c), ConvertText(z))]))])
  {
    var L := List([ConvertText(x), ConvertText(y)]);
    var H := Map([(Sym(c), ConvertText(z))]);
    FirstTwice(a, x, y, t1, t2);
    KeysOne(Sym(a), L);
    LaterNested([(Sym(a), L)], b, c, z, t1, t2, t3);
    Entries(Sym(a), L, Sym(b), H);
  }

  /** `a=1 a=2 b:c=3` (lines 49-55): lists and hashes are not shown. */
  lemma HtmlNested()
    ensures ParseArgs("a=1 a=2 b:c=3", [], '=') ==
      Ok([(Sym("a"), List([Int(1), Int(2)])), (Sym("b"), Map([(Sym("c"), Int(3))]))])
    ensures Html([(Sym("a"), List([Int(1), Int(2)])), (Sym("b"), Map([(Sym("c"), Int(3))]))], []) == ""
  {
    HtmlNestedWords();
    TwiceA();
    NestedBC();
    One();
    Two();
    Three();
    NestedFold("a", "b", "c", "1", "2", "3", "a=1", "a=2", "b:c=3");
    ListAndMapHidden(Sym("a"), [Int(1), Int(2)], Sym("b"), [(Sym("c"), Int(3))]);
  }

  /** A list and a hash are never shown in HTML. */
  lemma ListAndMapHidden(a: Key, l: seq<Value>, b: Key, h: ArgMap)
    ensures Html([(a, List(l)), (b, Map(h))], []) == ""
  {
    HtmlNothingKept([(a, List(l)), (b, Map(h))], []);
  }

  lemma HtmlNestedWords()
    ensures ParseArgs("a=1 a=2 b:c=3", [], '=') == Fold([], ["a=1", "a=2", "b:c=3"], '=')
  {
    var ws := ["a=1", "a=2", "b:c=3"];
    assert "a=1 a=2 b:c=3" == Unwords(ws);
    PlainWords(ws, [], '=');
  }

  lemma NestedBC() ensures NestedWords("b", "c", "3", "b:c=3") {
  }

  // ----- a separator that line 215 leaves unmarked -----

  /** With the separator `+`, the replacement `\+` of line 215 is the last
      group, so `+` gets no backslash: inside quotes it stays live, and
      `'a+b'` is the pair `{a: "b"}`, not `argv1`. */
  lemma PlusSeparator()
    ensures ParseArgs("'a+b'", [], '+') == Ok([(Sym("a"), Str("b"))])
  {
    PlusPre();
    PlusTokens();
    PlusStep();
    FoldOne([], "a+b", '+');
  }

  lemma PlusPre() ensures PreEscape("'a+b'", '+') == "'a+b'" {
    EscapeSpecialsNone("'a+b'", false);
    EscapeUrlsNone("'a+b'", false);
    EscapeSeparatorsUnmarked("'a+b'", '+', false);
  }

  lemma PlusTokens() ensures Tokens("'a+b'") == Ok(["a+b"]) {
    assert "'a+b'" == "'" + "a+b" + "'" + [];
    ScanSingleQuoted("a+b", [], "");
    assert "" + "a+b" == "a+b";
  }

  lemma PlusStep() ensures Step([], 0, "a+b", '+') == Ok([(Sym("a"), Str("b"))]) {
    assert "a+b" == "a" + ['+'] + "b";
    StepKeyValue([], 0, "a", "b", '+');
    Unescaped("b", '+');
    ConvertKeepsText("b");
    KeyA();
    StoreOne(Sym("a"), Str("b"));
  }
}
