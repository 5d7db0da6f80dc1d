/** Whole tag markups: what `Parser.new(raw).args` is for a markup without
    quotes or backslashes, for a quoted value, and for a quoted first word.
    These tie the pre-escape pass, `shellsplit` and `parse` together
    (lib/liquid/tag/parser.rb:169-185, 211-216, 229-244). */
module Markup {
  import opened Text
  import opened Values
  import opened Escaping
  import opened ShellWords
  import opened Classify
  import opened Hashes
  import opened Parsing

  /** A backslash put in front of characters that are not blanks is
      invisible to `shellsplit` on text without quotes or backslashes: it
      only makes literal a character that was literal already, whatever
      follows. */
  lemma {:induction false} ScanInserted(s: string, t: string, chars: set<char>, f: string, y: string)
    requires Plain(s) && Inserted(s, t, chars)
    requires forall c :: c in chars ==> !IsSpace(c)
    ensures Scan(t + y, f) == Scan(s + y, f)
    ensures Continue(f, t + y) == Continue(f, s + y)
    decreases |s|, 1
  {
    if s == [] {
      assert t == [] && t + y == y && s + y == y;
    } else if |t| >= 2 && t[0] == '\\' && t[1] == s[0] && s[0] in chars && Inserted(s[1..], t[2..], chars) {
      ScanInsertedEscaped(s, t, chars, f, y);
      ContinueNonBlank(f, t + y);
      ContinueNonBlank(f, s + y);
    } else if IsSpace(s[0]) {
      assert s[0] !in chars;
      assert t != [] && t[0] == s[0] && Inserted(s[1..], t[1..], chars);
      PlainSuffix(s, 1);
      ScanInserted(s[1..], t[1..], chars, "", y);
      ScanInsertedBlank(s, t, chars, f, y);
      HeadTail(t, y);
      HeadTail(s, y);
      ContinueBlank(f, t + y);
      ContinueBlank(f, s + y);
    } else {
      ScanInsertedBare(s, t, chars, f, y);
      ContinueNonBlank(f, t + y);
      ContinueNonBlank(f, s + y);
    }
  }

  lemma {:induction false} ScanInsertedEscaped(s: string, t: string, chars: set<char>, f: string, y: string)
    requires Plain(s) && s != [] && |t| >= 2 && t[0] == '\\' && t[1] == s[0] && s[0] in chars
    requires Inserted(s[1..], t[2..], chars)
    requires forall c :: c in chars ==> !IsSpace(c)
    ensures Scan(t + y, f) == Scan(s + y, f)
    decreases |s|, 0
  {
    var c := s[0];
    var u, w := t[2..] + y, s[1..] + y;
    assert Plain(s[1..]) && c != '\n' && BareChar(c) by {
      PlainSuffix(s, 1);
    }
    assert Scan(t + y, f) == Continue(f + [c], u) by {
      TwoSplit(t, y);
      ScanBackslash(c, u, f);
    }
    assert Scan(s + y, f) == Continue(f + [c], w) by {
      HeadSplit(s, y);
      ScanBareChar(c, w, f);
    }
    assert Continue(f + [c], u) == Continue(f + [c], w) by {
      ScanInserted(s[1..], t[2..], chars, f + [c], y);
    }
  }

  lemma {:induction false} ScanInsertedBlank(s: string, t: string, chars: set<char>, f: string, y: string)
    requires Plain(s) && s != [] && IsSpace(s[0]) && Inserted(s, t, chars)
    requires forall c :: c in chars ==> !IsSpace(c)
    ensures Scan(t + y, f) == Scan(s + y, f)
    decreases |s|, 0
  {
    assert s[0] !in chars;
    assert t != [] && t[0] == s[0] && Inserted(s[1..], t[1..], chars);
    PlainSuffix(s, 1);
    ScanInserted(s[1..], t[1..], chars, f, y);
    HeadTail(t, y);
    HeadTail(s, y);
    ScanBlank(t + y, f);
    ScanBlank(s + y, f);
  }

  lemma {:induction false} ScanInsertedBare(s: string, t: string, chars: set<char>, f: string, y: string)
    requires Plain(s) && s != [] && !IsSpace(s[0]) && Inserted(s, t, chars)
    requires !(|t| >= 2 && t[0] == '\\' && t[1] == s[0] && s[0] in chars && Inserted(s[1..], t[2..], chars))
    requires forall c :: c in chars ==> !IsSpace(c)
    ensures Scan(t + y, f) == Scan(s + y, f)
    decreases |s|, 0
  {
    var c := s[0];
    assert t != [] && t[0] == c && Inserted(s[1..], t[1..], chars);
    var u, w := t[1..] + y, s[1..] + y;
    assert Plain(s[1..]) && BareChar(c) by {
      PlainSuffix(s, 1);
    }
    assert Scan(t + y, f) == Continue(f + [c], u) by {
      HeadSplit(t, y);
      ScanBareChar(c, u, f);
    }
    assert Scan(s + y, f) == Continue(f + [c], w) by {
      HeadSplit(s, y);
      ScanBareChar(c, w, f);
    }
    assert Continue(f + [c], u) == Continue(f + [c], w) by {
      ScanInserted(s[1..], t[1..], chars, f + [c], y);
    }
  }

  /** Text that does not start with a blank continues the current word. */
  lemma ContinueNonBlank(f: string, u: string)
    requires u != [] && !IsSpace(u[0])
    ensures Continue(f, u) == Scan(u, f)
  {
  }

  /** A blank ends the current word. */
  lemma ContinueBlank(f: string, u: string)
    requires u != [] && IsSpace(u[0])
    ensures Continue(f, u) == Cons(f, Scan(u[1..], ""))
  {
  }

  /** Markup without quotes or backslashes, and a separator that is not a
      blank, is split at its blanks and nothing else: the pre-escape pass,
      the splitting and the dropping of backslashes leave every word as
      written. */
  lemma PlainTokens(raw: string, sep: char)
    requires Plain(raw) && ValidSep(sep) && !IsSpace(sep)
    ensures Tokens(PreEscape(raw, sep)) == Ok(Fields(raw))
  {
    assert BackslashFree(raw);
    var t1 := EscapeSpecials(raw, false);
    EscapeSpecialsInserted(raw, false);
    EscapeUrlsOnInserted(raw, t1);
    EscapeSeparatorsInserted(raw, t1, Specials, sep, false);
    forall c | c in Specials + {sep} ensures !IsSpace(c) {
    }
    var t := PreEscape(raw, sep);
    ScanInserted(raw, t, Specials + {sep}, "", []);
    assert raw + [] == raw && t + [] == t;
    TokensOfPlain(raw);
  }

  /** So such markup parses as the fold of `parse`'s steps over its
      blank-separated words. */
  lemma PlainMarkup(raw: string, m: ArgMap, sep: char)
    requires Plain(raw) && ValidSep(sep) && !IsSpace(sep)
    ensures ParseArgs(raw, m, sep) == Fold(m, Fields(raw), sep)
  {
    PlainTokens(raw, sep);
  }

  /** Words without quotes, backslashes or blanks, joined with spaces,
      parse as the fold of `parse`'s steps over those words. */
  lemma PlainWords(ws: seq<string>, m: ArgMap, sep: char)
    requires ValidSep(sep) && !IsSpace(sep)
    requires forall i :: 0 <= i < |ws| ==> ws[i] != [] && Plain(ws[i]) && forall j :: 0 <= j < |ws[i]| ==> !IsSpace(ws[i][j])
    ensures ParseArgs(Unwords(ws), m, sep) == Fold(m, ws, sep)
  {
    UnwordsPlain(ws);
    FieldsUnwords(ws);
    PlainMarkup(Unwords(ws), m, sep);
  }

  lemma {:induction false} UnwordsPlain(ws: seq<string>)
    requires forall i :: 0 <= i < |ws| ==> Plain(ws[i])
    ensures Plain(Unwords(ws))
    decreases |ws|
  {
    if |ws| > 1 {
      UnwordsPlain(ws[1..]);
      var a, b := ws[0], Unwords(ws[1..]);
      assert Plain(a);
      var t := a + " " + b;
      forall j | 0 <= j < |t| ensures t[j] != '\'' && t[j] != '"' && t[j] != '\\' {
        if j < |a| {
          assert t[j] == a[j];
        } else if j > |a| {
          assert t[j] == b[j - |a| - 1];
        }
      }
    } else if |ws| == 1 {
      assert Plain(ws[0]);
    }
  }

  /** One unquoted word `k=v`: `v` is stored under the key path of `k`,
      typed, exactly as written. */
  lemma PlainPair(m: ArgMap, k: string, v: string, sep: char)
    requires ValidSep(sep) && !IsSpace(sep) && sep != '"' && StorableKey(k)
    requires Plain(v) && NoLive(v, sep) && forall j :: 0 <= j < |v| ==> !IsSpace(v[j])
    ensures ParseArgs(k + [sep] + v, m, sep) == Store(m, KeyPath(k), ConvertText(v))
  {
    var w := k + [sep] + v;
    assert Plain(w) && forall j :: 0 <= j < |w| ==> !IsSpace(w[j]) by {
      assert forall j :: 0 <= j < |k| ==> w[j] == k[j];
      assert forall j :: 0 <= j < |v| ==> w[|k| + 1 + j] == v[j];
    }
    PlainMarkup(w, m, sep);
    FieldsWord(w);
    FoldOne(m, w, sep);
    StepKeyValue(m, 0, k, v, sep);
    assert BackslashFree(v);
    UnbackslashFree(v, {sep});
    UnbackslashFree(v, Specials);
  }

  /** One unquoted word with no live separator and no sigil becomes
      `argv1`, as written, unless `convert` turns it into a number. */
  lemma PlainArgv1(m: ArgMap, w: string, sep: char)
    requires ValidSep(sep) && !IsSpace(sep)
    requires w != [] && Plain(w) && NoLive(w, sep) && !IsBoolText(w)
    requires forall j :: 0 <= j < |w| ==> !IsSpace(w[j])
    ensures ConvertText(w).Str? ==> ParseArgs(w, m, sep) == Ok(Put(m, Argv1, Str(w)))
    ensures !ConvertText(w).Str? ==> ParseArgs(w, m, sep) == Err(NoGsub)
  {
    PlainMarkup(w, m, sep);
    FieldsWord(w);
    FoldOne(m, w, sep);
    StepArgv1(m, w, sep);
    assert BackslashFree(w);
    UnbackslashFree(w, {sep});
    UnbackslashFree(w, Specials);
  }

  /** So a first word that does not start with a digit is `argv1`, as
      written. */
  lemma PlainArgv1Text(m: ArgMap, w: string, sep: char)
    requires ValidSep(sep) && !IsSpace(sep)
    requires w != [] && Plain(w) && NoLive(w, sep) && !IsBoolText(w) && !IsDigit(w[0])
    requires forall j :: 0 <= j < |w| ==> !IsSpace(w[j])
    ensures ParseArgs(w, m, sep) == Ok(Put(m, Argv1, Str(w)))
  {
    ConvertKeepsText(w);
    PlainArgv1(m, w, sep);
  }

  /** One unquoted sigil word `@k` or `!k` stores `true` or `false` under
      the key path of `k`. */
  lemma PlainSigil(m: ArgMap, s: char, k: string, sep: char)
    requires ValidSep(sep) && !IsSpace(sep) && (s == '@' || s == '!')
    requires k != [] && KeyChars(k) && NoLive([s] + k, sep)
    ensures ParseArgs([s] + k, m, sep) == Store(m, KeyPath(k), Bool(s == '@'))
  {
    var w := [s] + k;
    assert Plain(w) && forall j :: 0 <= j < |w| ==> !IsSpace(w[j]) by {
      forall j | 0 <= j < |w| ensures w[j] != '\'' && w[j] != '"' && w[j] != '\\' && !IsSpace(w[j]) {
        if j > 0 {
          assert w[j] == k[j - 1] && KeyChar(k[j - 1]);
        }
      }
    }
    PlainMarkup(w, m, sep);
    FieldsWord(w);
    FoldOne(m, w, sep);
    StepSigil(m, 0, s, k, sep);
  }

  /** A key part `k` may be stored under: ending in a word character (so
      the separator after it is live), and without blanks, quotes or
      backslashes, so that `shellsplit` leaves it as written. It may hold
      `@ ! : =` and the separator itself, as in `a:b:'c:d'` with `:`. */
  predicate StorableKey(k: string) {
    k != [] && Plain(k) && IsWord(k[|k| - 1]) && forall j :: 0 <= j < |k| ==> !IsSpace(k[j])
  }

  /** `k='x'`: a single-quoted value is stored exactly as written, with its
      `@ ! : =` and separators, under the key path of `k`, and then typed. */
  lemma QuotedPair(m: ArgMap, k: string, x: string, sep: char)
    requires ValidSep(sep) && !IsSpace(sep) && sep != '"'
    requires StorableKey(k)
    requires BackslashFree(x) && '\'' !in x
    ensures ParseArgs(k + [sep] + "'" + x + "'", m, sep) == Store(m, KeyPath(k), ConvertText(x))
  {
    var X := PreEscape(x, sep);
    assert Tokens(PreEscape(k + [sep] + "'" + x + "'", sep)) == Ok([k + [sep] + X]) by {
      QuotedPairEscaped(k, x, sep, '\'');
      if '\'' in X {
        PreEscapeChars(x, sep, '\'');
      }
      SingleQuotedTokens(k, X, sep);
    }
    PairStep(m, k, x, X, sep);
  }

  lemma SingleQuotedTokens(k: string, X: string, sep: char)
    requires ValidSep(sep) && !IsSpace(sep) && sep != '"' && StorableKey(k) && '\'' !in X
    ensures Tokens(PreEscape(k, sep) + ['\\', sep] + "'" + X + "'") == Ok([k + [sep] + X])
  {
    var y := "'" + X + "'";
    assert PreEscape(k, sep) + ['\\', sep] + "'" + X + "'" == PreEscape(k, sep) + ['\\', sep] + y;
    KeyThenEscapedSep(k, sep, y);
    assert y == "'" + X + "'" + [];
    ScanSingleQuoted(X, [], k + [sep]);
  }

  /** `k="x"`: a double-quoted value is stored as written too. The
      backslashes the pre-escape pass put into it stand before `@ ! : =`
      and the separator, none of which a double-quoted run unescapes, so the
      run hands them on to `unescape`. */
  lemma DoubleQuotedPair(m: ArgMap, k: string, x: string, sep: char)
    requires ValidSep(sep) && !IsSpace(sep) && sep != '"' && sep != '$'
    requires StorableKey(k)
    requires BackslashFree(x) && '"' !in x
    ensures ParseArgs(k + [sep] + "\"" + x + "\"", m, sep) == Store(m, KeyPath(k), ConvertText(x))
  {
    var X := PreEscape(x, sep);
    QuotedPairEscaped(k, x, sep, '"');
    DoubleQuotedRun(x, sep);
    DoubleQuotedTokens(k, X, sep);
    PairStep(m, k, x, X, sep);
  }

  lemma DoubleQuotedTokens(k: string, X: string, sep: char)
    requires ValidSep(sep) && !IsSpace(sep) && sep != '"' && StorableKey(k)
    requires DoubleQuotedBody(X) && Unbackslash(X, DoubleQuoted) == X
    ensures Tokens(PreEscape(k, sep) + ['\\', sep] + "\"" + X + "\"") == Ok([k + [sep] + X])
  {
    var y := "\"" + X + "\"";
    assert PreEscape(k, sep) + ['\\', sep] + "\"" + X + "\"" == PreEscape(k, sep) + ['\\', sep] + y;
    KeyThenEscapedSep(k, sep, y);
    assert y == "\"" + X + "\"" + [];
    ScanDoubleQuoted(X, [], k + [sep]);
  }

  /** The pre-escaped text of `x` passes through a double-quoted run
      unchanged. */
  lemma DoubleQuotedRun(x: string, sep: char)
    requires ValidSep(sep) && sep != '"' && sep != '$' && sep != '\n'
    requires BackslashFree(x) && '"' !in x
    ensures DoubleQuotedBody(PreEscape(x, sep))
    ensures Unbackslash(PreEscape(x, sep), DoubleQuoted) == PreEscape(x, sep)
  {
    var chars := Specials + {sep};
    PreEscapeInserted(x, sep);
    forall c | c in chars ensures c !in DoubleQuoted {
    }
    InsertedDoubleQuotedBody(x, PreEscape(x, sep), chars);
    UnbackslashKeeps(x, PreEscape(x, sep), chars, DoubleQuoted);
  }

  /** The one token `k` + separator + pre-escaped `x` stores `x`, typed. */
  lemma PairStep(m: ArgMap, k: string, x: string, X: string, sep: char)
    requires ValidSep(sep) && StorableKey(k) && BackslashFree(x) && X == PreEscape(x, sep)
    ensures Fold(m, [k + [sep] + X], sep) == Store(m, KeyPath(k), ConvertText(x))
  {
    FoldOne(m, k + [sep] + X, sep);
    PreEscapeNoLiveSep(x, sep);
    StepKeyValue(m, 0, k, X, sep);
    UnescapeUndoesPreEscape(x, sep);
  }

  lemma QuotedPairEscaped(k: string, x: string, sep: char, q: char)
    requires ValidSep(sep) && StorableKey(k)
    requires (q == '\'' || q == '"') && q != sep
    ensures PreEscape(k + [sep] + [q] + x + [q], sep) == PreEscape(k, sep) + ['\\', sep] + [q] + PreEscape(x, sep) + [q]
  {
    var raw := k + [sep] + [q] + x + [q];
    var c := k[|k| - 1];
    var X := PreEscape(x, sep);
    assert raw == k + ([sep] + ([q] + (x + [q])));
    assert PreEscapeAfter([sep] + ([q] + (x + [q])), sep, c) == ['\\', sep] + ([q] + (X + [q])) by {
      PreEscapeAfterAppend([sep], [q] + (x + [q]), sep, c);
      PreEscapeSeparator(sep, c);
      QuotedEscape(x, sep, q, sep);
    }
    PreEscapeIsAfter(raw, sep);
    PreEscapeAfterAppend(k, [sep] + ([q] + (x + [q])), sep, ' ');
    PreEscapeIsAfter(k, sep);
  }

  /** A quoted run is pre-escaped inside its quotes, whatever came
      before. */
  lemma QuotedEscape(x: string, sep: char, q: char, c: char)
    requires ValidSep(sep) && (q == '\'' || q == '"') && q != sep
    ensures PreEscapeAfter([q] + (x + [q]), sep, c) == [q] + (PreEscape(x, sep) + [q])
  {
    PreEscapeAfterAppend([q], x + [q], sep, c);
    QuoteUntouched(sep, c, q);
    QuotedTail(x, sep, q);
  }

  lemma QuoteUntouched(sep: char, c: char, q: char)
    requires (q == '\'' || q == '"') && q != sep
    ensures PreEscapeAfter([q], sep, c) == [q]
  {
    PreEscapeUntouched([q], sep, c);
  }

  /** The pre-escape of `x` and a closing quote, read after the opening
      quote. */
  lemma QuotedTail(x: string, sep: char, q: char)
    requires ValidSep(sep) && (q == '\'' || q == '"') && q != sep
    ensures PreEscapeAfter(x + [q], sep, q) == PreEscape(x, sep) + [q]
  {
    PreEscapeAfterAppend(x, [q], sep, q);
    PreEscapeIsAfter(x, sep);
    QuoteUntouched(sep, LastOr(x, q), q);
  }

  /** A key, then an escaped separator: the key's escapes vanish and the
      separator joins the key's word, up to the quote that follows. */
  lemma KeyThenEscapedSep(k: string, sep: char, y: string)
    requires ValidSep(sep) && !IsSpace(sep) && sep != '"' && StorableKey(k)
    requires y != [] && (y[0] == '\'' || y[0] == '"')
    ensures Scan(PreEscape(k, sep) + ['\\', sep] + y, "") == Scan(y, k + [sep])
  {
    var w := k + [sep];
    KeySepInserted(k, sep);
    KeySepBare(k, sep);
    ScanInserted(w, PreEscape(k, sep) + ['\\', sep], Specials + {sep}, "", y);
    ScanBare(w, y, "");
    assert "" + w == w;
  }

  /** The pre-escaped key and the escaped separator are the key and the
      separator with backslashes inserted before characters that are not
      blanks. */
  lemma KeySepInserted(k: string, sep: char)
    requires ValidSep(sep) && !IsSpace(sep) && StorableKey(k)
    ensures Inserted(k + [sep], PreEscape(k, sep) + ['\\', sep], Specials + {sep})
    ensures forall c :: c in Specials + {sep} ==> !IsSpace(c)
  {
    forall c | c in Specials + {sep} ensures !IsSpace(c) {
    }
    assert BackslashFree(k);
    PreEscapeInserted(k, sep);
    assert Inserted([sep], ['\\', sep], Specials + {sep}) by {
      assert [sep][1..] == [] && ['\\', sep][2..] == [];
    }
    InsertedAppend(k, PreEscape(k, sep), [sep], ['\\', sep], Specials + {sep});
  }

  /** The key and the separator make one bare word. */
  lemma KeySepBare(k: string, sep: char)
    requires ValidSep(sep) && !IsSpace(sep) && sep != '"' && StorableKey(k)
    ensures Plain(k + [sep])
    ensures forall j :: 0 <= j < |k + [sep]| ==> BareChar((k + [sep])[j])
  {
    var w := k + [sep];
    assert forall j :: 0 <= j < |k| ==> w[j] == k[j];
  }

  /** Backslashes inserted before characters a later pass does not unescape
      stay where they are. */
  lemma {:induction false} UnbackslashKeeps(s: string, t: string, chars: set<char>, drop: set<char>)
    requires BackslashFree(s) && Inserted(s, t, chars) && chars !! drop
    ensures Unbackslash(t, drop) == t
    decreases |s|
  {
    if s != [] {
      if |t| >= 2 && t[0] == '\\' && t[1] == s[0] && s[0] in chars && Inserted(s[1..], t[2..], chars) {
        UnbackslashKeeps(s[1..], t[2..], chars, drop);
        assert t[1..][1..] == t[2..];
        assert Unbackslash(t[1..], drop) == [s[0]] + Unbackslash(t[2..], drop);
        assert t == ['\\', s[0]] + t[2..];
      } else {
        UnbackslashKeeps(s[1..], t[1..], chars, drop);
        assert t == [s[0]] + t[1..];
      }
    }
  }

  /** Text with inserted backslashes and no double quote reads as the body
      of a double-quoted run. */
  lemma {:induction false} InsertedDoubleQuotedBody(s: string, t: string, chars: set<char>)
    requires BackslashFree(s) && '"' !in s && Inserted(s, t, chars)
    ensures DoubleQuotedBody(t)
    decreases |s|
  {
    if s != [] {
      if |t| >= 2 && t[0] == '\\' && t[1] == s[0] && s[0] in chars && Inserted(s[1..], t[2..], chars) {
        InsertedDoubleQuotedBody(s[1..], t[2..], chars);
      } else {
        InsertedDoubleQuotedBody(s[1..], t[1..], chars);
        assert t[0] == s[0];
      }
    } else {
      assert t == [];
    }
  }

  /** `'x'` alone: the quoted first word becomes `argv1` exactly as
      written, unless `convert` turns it into a number, which `unescape`
      cannot take. */
  lemma QuotedArgv1(m: ArgMap, x: string, sep: char)
    requires ValidSep(sep) && BackslashFree(x) && '\'' !in x
    ensures ConvertText(PreEscape(x, sep)).Str? ==>
      ParseArgs("'" + x + "'", m, sep) == Ok(Put(m, Argv1, Str(x)))
    ensures !ConvertText(PreEscape(x, sep)).Str? ==>
      ParseArgs("'" + x + "'", m, sep) == Err(NoGsub)
  {
    var X := PreEscape(x, sep);
    QuotedAloneTokens(x, sep);
    FoldOne(m, X, sep);
    PreEscapeNoLiveSep(x, sep);
    PreEscapeNoSigil(x, sep);
    StepArgv1(m, X, sep);
    UnescapeUndoesPreEscape(x, sep);
  }

  lemma QuotedAloneTokens(x: string, sep: char)
    requires ValidSep(sep) && '\'' !in x
    ensures Tokens(PreEscape("'" + x + "'", sep)) == Ok([PreEscape(x, sep)])
  {
    var raw := "'" + x + "'";
    var X := PreEscape(x, sep);
    assert PreEscape(raw, sep) == "'" + X + "'" + [] by {
      assert raw == "'" + (x + "'");
      PreEscapeIsAfter(raw, sep);
      QuotedEscape(x, sep, '\'', ' ');
    }
    if '\'' in X {
      PreEscapeChars(x, sep, '\'');
    }
    ScanSingleQuoted(X, [], "");
    assert "" + X == X;
  }

  /** So a quoted first word that does not start with a digit, on one
      line, is `argv1`, as written. */
  lemma QuotedArgv1Text(m: ArgMap, x: string, sep: char)
    requires ValidSep(sep) && BackslashFree(x) && '\'' !in x
    requires x != [] && NewlineFree(x) && !IsDigit(x[0])
    ensures ParseArgs("'" + x + "'", m, sep) == Ok(Put(m, Argv1, Str(x)))
  {
    var X := PreEscape(x, sep);
    PreEscapeInserted(x, sep);
    assert X != [] && (X[0] == '\\' || X[0] == x[0]);
    if '\n' in X {
      PreEscapeChars(x, sep, '\n');
    }
    ConvertKeepsText(X);
    QuotedArgv1(m, x, sep);
  }
}
