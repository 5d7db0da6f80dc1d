/** The text rewriting around the tokenizer: the three `gsub` passes of
    `from_shellwords` that run before `shellsplit`, and `unescape`, which
    undoes them on a value afterwards. Each pass reads the ORIGINAL text around
    a match (Ruby's `gsub` looks behind in the string it scans), so each
    function carries a flag describing the character before its argument. */
module Escaping {
  import opened Text

  /** Line 213, `gsub(SPECIAL, "\\\\\\1")`: a backslash goes in front of
      every `@ ! : =` that does not already follow one. */
  function EscapeSpecials(s: string, afterBackslash: bool): (r: string)
    ensures |r| >= |s|
    decreases |s|
  {
    if s == [] then []
    else (if IsSpecial(s[0]) && !afterBackslash then ['\\', s[0]] else [s[0]])
         + EscapeSpecials(s[1..], s[0] == '\\')
  }

  /** Line 214, `gsub(UNQUOTED_SPECIAL, "\\\\\\1")`: a backslash goes in front
      of every `://` that does not follow one. After a match the scan goes on
      behind it, where the character before is the second `/`. */
  function EscapeUrls(s: string, afterBackslash: bool): (r: string)
    ensures |r| >= |s|
    decreases |s|
  {
    if s == [] then []
    else if |s| >= 3 && s[0] == ':' && s[1] == '/' && s[2] == '/' && !afterBackslash then
      ['\\', ':', '/', '/'] + EscapeUrls(s[3..], false)
    else [s[0]] + EscapeUrls(s[1..], s[0] == '\\')
  }

  /** Line 215, `gsub(@sep_regexp, @escaped_sep)` with
      `@sep_regexp = \b(?<!\\)(sep)`: a backslash goes in front of every
      separator that follows a word character, unless the replacement string
      stands for the match itself (`MarksSep`). */
  function EscapeSeparators(s: string, sep: char, afterWord: bool): (r: string)
    ensures |r| >= |s|
    decreases |s|
  {
    if s == [] then []
    else (if s[0] == sep && afterWord && MarksSep(sep) then ['\\', sep] else [s[0]])
         + EscapeSeparators(s[1..], sep, IsWord(s[0]))
  }

  /** The text `from_shellwords` hands to `shellsplit` (lines 212-215). */
  function PreEscape(raw: string, sep: char): (r: string)
    ensures |r| >= |raw|
  {
    EscapeSeparators(EscapeUrls(EscapeSpecials(raw, false), false), sep, false)
  }

  /** Lines 161-165, `unescape`: `\sep` becomes `sep`, then `\@ \! \: \=`
      lose their backslash. */
  function Unescape(val: string, sep: char): (r: string)
    ensures |r| <= |val|
  {
    Unbackslash(Unbackslash(val, {sep}), Specials)
  }

  // ----- every structural character is guarded after line 213 -----

  /** Every `@ ! : =` of `t` has a backslash in front of it; `before` says
      whether the character in front of `t` is one. */
  ghost predicate SpecialsGuarded(t: string, before: bool) {
    && (|t| > 0 && IsSpecial(t[0]) ==> before)
    && forall j {:trigger t[j]} :: 0 < j < |t| && IsSpecial(t[j]) ==> t[j - 1] == '\\'
  }

  lemma {:induction false} EscapeSpecialsGuards(s: string, ab: bool)
    ensures SpecialsGuarded(EscapeSpecials(s, ab), ab)
    ensures s != [] ==> EscapeSpecials(s, ab)[|EscapeSpecials(s, ab)| - 1] == s[|s| - 1]
    decreases |s|
  {
    if s != [] {
      EscapeSpecialsGuards(s[1..], s[0] == '\\');
      var head := if IsSpecial(s[0]) && !ab then ['\\', s[0]] else [s[0]];
      var rest := EscapeSpecials(s[1..], s[0] == '\\');
      var r := head + rest;
      assert r == EscapeSpecials(s, ab);
      forall j | 0 <= j < |r| && IsSpecial(r[j])
        ensures if j == 0 then ab else r[j - 1] == '\\'
      {
        if j >= |head| {
          assert r[j] == rest[j - |head|];
          assert IsSpecial(rest[j - |head|]);
          if j == |head| {
            assert r[j - 1] == s[0];
          } else {
            assert r[j - 1] == rest[j - |head| - 1];
          }
        } else {
          assert r[j] == head[j];
        }
      }
      if s[1..] == [] {
        assert r[|r| - 1] == s[0];
      } else {
        assert r[|r| - 1] == rest[|rest| - 1];
      }
    }
  }

  /** Line 214 changes nothing once line 213 has run: every `:` has
      a backslash in front of it, so `(?<!\\)(://)` cannot match. */
  lemma {:induction false} EscapeUrlsIdentity(t: string, ab: bool)
    requires SpecialsGuarded(t, ab)
    ensures EscapeUrls(t, ab) == t
    decreases |t|
  {
    if t != [] {
      assert IsSpecial(':');
      assert SpecialsGuarded(t[1..], t[0] == '\\') by {
        forall j | 0 <= j < |t[1..]| && IsSpecial(t[1..][j])
          ensures if j == 0 then t[0] == '\\' else t[1..][j - 1] == '\\'
        {
          assert t[1..][j] == t[j + 1];
        }
      }
      EscapeUrlsIdentity(t[1..], t[0] == '\\');
      if t[0] == ':' {
        assert IsSpecial(t[0]);
        assert ab;
      }
      assert EscapeUrls(t, ab) == [t[0]] + EscapeUrls(t[1..], t[0] == '\\');
      assert [t[0]] + t[1..] == t;
    }
  }

  /** When the separator is one of `@ ! : =`, line 215 changes nothing
      either: every separator already follows a backslash. */
  lemma {:induction false} EscapeSeparatorsIdentity(t: string, sep: char, ab: bool, aw: bool)
    requires IsSpecial(sep) && SpecialsGuarded(t, ab) && (ab ==> !aw)
    ensures EscapeSeparators(t, sep, aw) == t
    decreases |t|
  {
    if t != [] {
      assert SpecialsGuarded(t[1..], t[0] == '\\') by {
        forall j | 0 <= j < |t[1..]| && IsSpecial(t[1..][j])
          ensures if j == 0 then t[0] == '\\' else t[1..][j - 1] == '\\'
        {
          assert t[1..][j] == t[j + 1];
        }
      }
      EscapeSeparatorsIdentity(t[1..], sep, t[0] == '\\', IsWord(t[0]));
      if t[0] == sep {
        assert IsSpecial(t[0]);
        assert !aw;
      }
      assert EscapeSeparators(t, sep, aw) == [t[0]] + EscapeSeparators(t[1..], sep, IsWord(t[0]));
      assert [t[0]] + t[1..] == t;
    }
  }

  /** With the default separator `=` (or `:`), the pre-escape pass is line
      213 alone. */
  lemma PreEscapeSpecialSep(raw: string, sep: char)
    requires IsSpecial(sep)
    ensures PreEscape(raw, sep) == EscapeSpecials(raw, false)
  {
    EscapeSpecialsGuards(raw, false);
    EscapeUrlsIdentity(EscapeSpecials(raw, false), false);
    EscapeSeparatorsIdentity(EscapeSpecials(raw, false), sep, false, false);
  }

  // ----- no separator is structural after line 215 -----

  lemma {:induction false} EscapeSeparatorsNoLive(s: string, sep: char, aw: bool)
    requires !IsWord(sep) && MarksSep(sep)
    ensures NoLive(EscapeSeparators(s, sep, aw), sep)
    ensures EscapeSeparators(s, sep, aw) != [] && EscapeSeparators(s, sep, aw)[0] == sep ==> !aw
    ensures s != [] ==>
              (EscapeSeparators(s, sep, aw) != [] &&
               EscapeSeparators(s, sep, aw)[|EscapeSeparators(s, sep, aw)| - 1] == s[|s| - 1])
    decreases |s|
  {
    if s != [] {
      EscapeSeparatorsNoLive(s[1..], sep, IsWord(s[0]));
      var head := if s[0] == sep && aw && MarksSep(sep) then ['\\', sep] else [s[0]];
      var rest := EscapeSeparators(s[1..], sep, IsWord(s[0]));
      var r := head + rest;
      assert r == EscapeSeparators(s, sep, aw);
      forall p | 0 <= p < |r| && LiveAt(r, p, sep) ensures false {
        if p >= |head| + 1 {
          assert r[p] == rest[p - |head|] && r[p - 1] == rest[p - |head| - 1];
          assert LiveAt(rest, p - |head|, sep);
        }
      }
      if s[1..] == [] {
        assert r[|r| - 1] == s[0];
      } else {
        assert r[|r| - 1] == rest[|rest| - 1];
      }
    }
  }

  /** After the pre-escape pass no separator counts: each one either got a
      backslash or does not follow a word character. Only the removal of bare
      backslashes in `shellsplit` makes a separator structural again. */
  lemma PreEscapeNoLiveSep(raw: string, sep: char)
    requires ValidSep(sep)
    ensures NoLive(PreEscape(raw, sep), sep)
  {
    EscapeSeparatorsNoLive(EscapeUrls(EscapeSpecials(raw, false), false), sep, false);
  }

  // ----- the passes add only backslashes -----

  lemma {:induction false} EscapeSpecialsChars(s: string, ab: bool, c: char)
    requires c in EscapeSpecials(s, ab)
    ensures c in s || c == '\\'
    decreases |s|
  {
    if s != [] {
      if c != s[0] && c != '\\' {
        EscapeSpecialsChars(s[1..], s[0] == '\\', c);
      }
    }
  }

  lemma {:induction false} EscapeUrlsChars(s: string, ab: bool, c: char)
    requires c in EscapeUrls(s, ab)
    ensures c in s || c == '\\'
    decreases |s|
  {
    if s != [] {
      if |s| >= 3 && s[0] == ':' && s[1] == '/' && s[2] == '/' && !ab {
        if c != ':' && c != '/' && c != '\\' {
          EscapeUrlsChars(s[3..], false, c);
        }
      } else if c != s[0] {
        EscapeUrlsChars(s[1..], s[0] == '\\', c);
      }
    }
  }

  lemma {:induction false} EscapeSeparatorsChars(s: string, sep: char, aw: bool, c: char)
    requires c in EscapeSeparators(s, sep, aw)
    ensures c in s || c == '\\'
    decreases |s|
  {
    if s != [] {
      if c != s[0] && c != '\\' {
        EscapeSeparatorsChars(s[1..], sep, IsWord(s[0]), c);
      }
    }
  }

  /** The pre-escape pass adds no character but the backslash. */
  lemma PreEscapeChars(raw: string, sep: char, c: char)
    requires c in PreEscape(raw, sep)
    ensures c in raw || c == '\\'
  {
    var t1 := EscapeSpecials(raw, false);
    var t2 := EscapeUrls(t1, false);
    EscapeSeparatorsChars(t2, sep, false, c);
    if c != '\\' {
      EscapeUrlsChars(t1, false, c);
      EscapeSpecialsChars(raw, false, c);
    }
  }

  // ----- unescape undoes the pre-escape pass -----

  /** `t` is `s` with a backslash put in front of some of its characters,
      each of them one of `chars`. */
  ghost predicate Inserted(s: string, t: string, chars: set<char>)
    decreases |s|
  {
    if s == [] then t == []
    else (|t| >= 2 && t[0] == '\\' && t[1] == s[0] && s[0] in chars && Inserted(s[1..], t[2..], chars))
         || (t != [] && t[0] == s[0] && Inserted(s[1..], t[1..], chars))
  }

  lemma {:induction false} InsertedNone(s: string, t: string)
    requires Inserted(s, t, {})
    ensures t == s
    decreases |s|
  {
    if s != [] {
      InsertedNone(s[1..], t[1..]);
    }
  }

  lemma {:induction false} EscapeSpecialsInserted(s: string, ab: bool)
    requires BackslashFree(s)
    ensures Inserted(s, EscapeSpecials(s, ab), Specials)
    decreases |s|
  {
    if s != [] {
      EscapeSpecialsInserted(s[1..], false);
      var r := EscapeSpecials(s, ab);
      if IsSpecial(s[0]) && !ab {
        assert r[2..] == EscapeSpecials(s[1..], false);
      } else {
        assert r[1..] == EscapeSpecials(s[1..], false);
      }
    }
  }

  lemma {:induction false} EscapeSeparatorsInserted(s: string, t: string, chars: set<char>, sep: char, aw: bool)
    requires BackslashFree(s) && sep != '\\' && Inserted(s, t, chars)
    ensures Inserted(s, EscapeSeparators(t, sep, aw), chars + {sep})
    decreases |s|
  {
    if s != [] {
      var r := EscapeSeparators(t, sep, aw);
      if |t| >= 2 && t[0] == '\\' && t[1] == s[0] && s[0] in chars && Inserted(s[1..], t[2..], chars) {
        EscapeSeparatorsInserted(s[1..], t[2..], chars, sep, IsWord(t[1]));
        assert t[1..][1..] == t[2..];
        assert EscapeSeparators(t[1..], sep, false) == [t[1]] + EscapeSeparators(t[2..], sep, IsWord(t[1]));
        assert r == ['\\', t[1]] + EscapeSeparators(t[2..], sep, IsWord(t[1]));
        assert r[2..] == EscapeSeparators(t[2..], sep, IsWord(t[1]));
      } else {
        EscapeSeparatorsInserted(s[1..], t[1..], chars, sep, IsWord(t[0]));
        if t[0] == sep && aw && MarksSep(sep) {
          assert r[2..] == EscapeSeparators(t[1..], sep, IsWord(t[0]));
        } else {
          assert r[1..] == EscapeSeparators(t[1..], sep, IsWord(t[0]));
        }
      }
    }
  }

  lemma {:induction false} UnbackslashInserted(s: string, t: string, chars: set<char>, drop: set<char>)
    requires BackslashFree(s) && Inserted(s, t, chars)
    ensures Inserted(s, Unbackslash(t, drop), chars - drop)
    decreases |s|
  {
    if s != [] {
      if |t| >= 2 && t[0] == '\\' && t[1] == s[0] && s[0] in chars && Inserted(s[1..], t[2..], chars) {
        UnbackslashInserted(s[1..], t[2..], chars, drop);
        if s[0] in drop {
          assert Unbackslash(t, drop) == [s[0]] + Unbackslash(t[2..], drop);
        } else {
          assert t[1..][1..] == t[2..];
          assert Unbackslash(t[1..], drop) == [s[0]] + Unbackslash(t[2..], drop);
          assert Unbackslash(t, drop) == ['\\', s[0]] + Unbackslash(t[2..], drop);
        }
      } else {
        UnbackslashInserted(s[1..], t[1..], chars, drop);
        assert Unbackslash(t, drop) == [s[0]] + Unbackslash(t[1..], drop);
      }
    }
  }

  lemma EscapeUrlsOnInserted(s: string, t: string)
    requires BackslashFree(s) && t == EscapeSpecials(s, false)
    ensures EscapeUrls(t, false) == t
  {
    EscapeSpecialsGuards(s, false);
    EscapeUrlsIdentity(t, false);
  }

  /** `unescape` gives back any backslash-free text that went through the
      pre-escape pass: this is why a quoted value keeps its `@ ! : =` and
      separators literally. */
  lemma UnescapeUndoesPreEscape(s: string, sep: char)
    requires BackslashFree(s) && ValidSep(sep)
    ensures Unescape(PreEscape(s, sep), sep) == s
  {
    var t1 := EscapeSpecials(s, false);
    EscapeSpecialsInserted(s, false);
    EscapeUrlsOnInserted(s, t1);
    var t2 := EscapeSeparators(t1, sep, false);
    EscapeSeparatorsInserted(s, t1, Specials, sep, false);
    assert PreEscape(s, sep) == t2;
    var u1 := Unbackslash(t2, {sep});
    UnbackslashInserted(s, t2, Specials + {sep}, {sep});
    UnbackslashInserted(s, u1, Specials + {sep} - {sep}, Specials);
    assert Specials + {sep} - {sep} - Specials == {};
    InsertedNone(s, Unbackslash(u1, Specials));
  }

  // ----- the passes over a concatenation -----

  /** The three passes of `from_shellwords` over `s` when the character in
      front of `s` is `c`: what they do to the part `s` of a longer text. */
  function PreEscapeAfter(s: string, sep: char, c: char): string {
    EscapeSeparators(EscapeUrls(EscapeSpecials(s, c == '\\'), c == '\\'), sep, IsWord(c))
  }

  /** The last character of `s`, or `c` when `s` is empty. */
  function LastOr(s: string, c: char): char {
    if s == [] then c else s[|s| - 1]
  }

  /** No `://` crosses from `a` into `b`. */
  predicate NoUrlSeam(a: string, b: string) {
    a == [] || b == [] || b[0] != '/' || (a[|a| - 1] != ':' && a[|a| - 1] != '/')
  }

  /** The whole markup is the part after a blank. */
  lemma PreEscapeIsAfter(raw: string, sep: char)
    ensures PreEscape(raw, sep) == PreEscapeAfter(raw, sep, ' ')
    ensures PreEscape(raw, sep) == PreEscapeAfter(raw, sep, '\'')
  {
  }

  lemma {:induction false} EscapeSpecialsAppend(a: string, b: string, ab: bool)
    ensures EscapeSpecials(a + b, ab) ==
      EscapeSpecials(a, ab) + EscapeSpecials(b, if a == [] then ab else a[|a| - 1] == '\\')
    decreases |a|
  {
    if a == [] {
      assert a + b == b;
    } else {
      var s := a + b;
      assert s[0] == a[0] && s[1..] == a[1..] + b;
      var bb := if a[1..] == [] then a[0] == '\\' else a[1..][|a[1..]| - 1] == '\\';
      assert bb == (a[|a| - 1] == '\\');
      EscapeSpecialsAppend(a[1..], b, a[0] == '\\');
      var h := if IsSpecial(a[0]) && !ab then ['\\', a[0]] else [a[0]];
      assert EscapeSpecials(s, ab) == h + EscapeSpecials(s[1..], a[0] == '\\');
      AppendAssoc(h, EscapeSpecials(a[1..], a[0] == '\\'), EscapeSpecials(b, bb));
    }
  }

  lemma {:induction false} EscapeSeparatorsAppend(a: string, b: string, sep: char, aw: bool)
    ensures EscapeSeparators(a + b, sep, aw) ==
      EscapeSeparators(a, sep, aw) + EscapeSeparators(b, sep, if a == [] then aw else IsWord(a[|a| - 1]))
    decreases |a|
  {
    if a == [] {
      assert a + b == b;
    } else {
      var s := a + b;
      assert s[0] == a[0] && s[1..] == a[1..] + b;
      var bw := if a[1..] == [] then IsWord(a[0]) else IsWord(a[1..][|a[1..]| - 1]);
      assert bw == IsWord(a[|a| - 1]);
      EscapeSeparatorsAppend(a[1..], b, sep, IsWord(a[0]));
      var h := if a[0] == sep && aw && MarksSep(sep) then ['\\', sep] else [a[0]];
      assert EscapeSeparators(s, sep, aw) == h + EscapeSeparators(s[1..], sep, IsWord(a[0]));
      AppendAssoc(h, EscapeSeparators(a[1..], sep, IsWord(a[0])), EscapeSeparators(b, sep, bw));
    }
  }

  lemma {:induction false} EscapeUrlsAppend(a: string, b: string, ab: bool)
    requires NoUrlSeam(a, b)
    ensures EscapeUrls(a + b, ab) ==
      EscapeUrls(a, ab) + EscapeUrls(b, if a == [] then ab else a[|a| - 1] == '\\')
    decreases |a|
  {
    if a == [] {
      assert a + b == b;
    } else if |a + b| >= 3 && (a + b)[0] == ':' && (a + b)[1] == '/' && (a + b)[2] == '/' && !ab {
      EscapeUrlsAppendMatch(a, b, ab);
      EscapeUrlsAppend(a[3..], b, false);
      var f := if a[3..] == [] then false else a[3..][|a[3..]| - 1] == '\\';
      assert f == (a[|a| - 1] == '\\');
      AppendAssoc(['\\', ':', '/', '/'], EscapeUrls(a[3..], false), EscapeUrls(b, f));
    } else {
      EscapeUrlsAppendStep(a, b, ab);
      EscapeUrlsAppend(a[1..], b, a[0] == '\\');
      var f := if a[1..] == [] then a[0] == '\\' else a[1..][|a[1..]| - 1] == '\\';
      assert f == (a[|a| - 1] == '\\');
      AppendAssoc([a[0]], EscapeUrls(a[1..], a[0] == '\\'), EscapeUrls(b, f));
    }
  }

  lemma AppendAssoc(x: string, y: string, z: string)
    ensures x + (y + z) == (x + y) + z
  {
  }

  lemma EscapeUrlsAppendMatch(a: string, b: string, ab: bool)
    requires NoUrlSeam(a, b) && a != []
    requires var s := a + b; |s| >= 3 && s[0] == ':' && s[1] == '/' && s[2] == '/' && !ab
    ensures |a| >= 3 && NoUrlSeam(a[3..], b)
    ensures EscapeUrls(a + b, ab) == ['\\', ':', '/', '/'] + EscapeUrls(a[3..] + b, false)
    ensures EscapeUrls(a, ab) == ['\\', ':', '/', '/'] + EscapeUrls(a[3..], false)
    ensures a[3..] == [] ==> a[|a| - 1] != '\\'
  {
    var s := a + b;
    assert |a| >= 3;
    assert a[..3] == s[..3];
    assert s[3..] == a[3..] + b;
    if a[3..] != [] {
      assert a[3..][|a[3..]| - 1] == a[|a| - 1];
    }
  }

  lemma EscapeUrlsAppendStep(a: string, b: string, ab: bool)
    requires NoUrlSeam(a, b) && a != []
    requires var s := a + b; !(|s| >= 3 && s[0] == ':' && s[1] == '/' && s[2] == '/' && !ab)
    ensures NoUrlSeam(a[1..], b)
    ensures EscapeUrls(a + b, ab) == [a[0]] + EscapeUrls(a[1..] + b, a[0] == '\\')
    ensures EscapeUrls(a, ab) == [a[0]] + EscapeUrls(a[1..], a[0] == '\\')
  {
    var s := a + b;
    assert s[1..] == a[1..] + b;
    if |a| >= 3 {
      assert a[..3] == s[..3];
    }
    if a[1..] != [] {
      assert a[1..][|a[1..]| - 1] == a[|a| - 1];
    }
  }

  lemma {:induction false} EscapeUrlsLast(s: string, ab: bool)
    requires s != []
    ensures EscapeUrls(s, ab) != [] && EscapeUrls(s, ab)[|EscapeUrls(s, ab)| - 1] == s[|s| - 1]
    decreases |s|
  {
    if |s| >= 3 && s[0] == ':' && s[1] == '/' && s[2] == '/' && !ab {
      if s[3..] != [] {
        EscapeUrlsLast(s[3..], false);
      }
    } else if s[1..] != [] {
      EscapeUrlsLast(s[1..], s[0] == '\\');
    }
  }

  /** The pre-escape of a concatenation is the pre-escape of its parts, the
      second part read after the last character of the first, as long as no
      `://` crosses the seam. */
  lemma PreEscapeAfterAppend(a: string, b: string, sep: char, c: char)
    requires NoUrlSeam(a, b)
    ensures PreEscapeAfter(a + b, sep, c) == PreEscapeAfter(a, sep, c) + PreEscapeAfter(b, sep, LastOr(a, c))
  {
    var sa := EscapeSpecials(a, c == '\\');
    var sb := EscapeSpecials(b, LastOr(a, c) == '\\');
    SpecialsStage(a, b, c);
    var ua := EscapeUrls(sa, c == '\\');
    var ub := EscapeUrls(sb, LastOr(a, c) == '\\');
    UrlsStage(sa, sb, c, LastOr(a, c));
    EscapeSeparatorsAppend(ua, ub, sep, IsWord(c));
  }

  /** The first pass splits at a seam, keeps the last character, and opens
      no `://` across the seam. */
  lemma SpecialsStage(a: string, b: string, c: char)
    requires NoUrlSeam(a, b)
    ensures var sa := EscapeSpecials(a, c == '\\');
      var sb := EscapeSpecials(b, LastOr(a, c) == '\\');
      EscapeSpecials(a + b, c == '\\') == sa + sb && NoUrlSeam(sa, sb) && LastOr(sa, c) == LastOr(a, c)
  {
    var sa := EscapeSpecials(a, c == '\\');
    var sb := EscapeSpecials(b, LastOr(a, c) == '\\');
    EscapeSpecialsAppend(a, b, c == '\\');
    EscapeSpecialsGuards(a, c == '\\');
    assert sa == [] <==> a == [];
    if b != [] {
      assert sb[0] == '\\' || sb[0] == b[0];
    }
  }

  /** The second pass splits at a seam that opens no `://`, and keeps the
      last character. */
  lemma UrlsStage(sa: string, sb: string, c: char, last: char)
    requires NoUrlSeam(sa, sb) && LastOr(sa, c) == last
    ensures EscapeUrls(sa + sb, c == '\\') == EscapeUrls(sa, c == '\\') + EscapeUrls(sb, last == '\\')
    ensures LastOr(EscapeUrls(sa, c == '\\'), c) == last
  {
    EscapeUrlsAppend(sa, sb, c == '\\');
    if sa != [] {
      EscapeUrlsLast(sa, c == '\\');
    } else {
      assert EscapeUrls(sa, c == '\\') == [];
    }
  }

  lemma {:induction false} EscapeSpecialsNone(s: string, ab: bool)
    requires forall j :: 0 <= j < |s| ==> !IsSpecial(s[j])
    ensures EscapeSpecials(s, ab) == s
    decreases |s|
  {
    if s != [] {
      EscapeSpecialsNone(s[1..], s[0] == '\\');
      assert [s[0]] + s[1..] == s;
    }
  }

  lemma {:induction false} EscapeUrlsNone(s: string, ab: bool)
    requires ':' !in s
    ensures EscapeUrls(s, ab) == s
    decreases |s|
  {
    if s != [] {
      EscapeUrlsNone(s[1..], s[0] == '\\');
      assert [s[0]] + s[1..] == s;
    }
  }

  lemma {:induction false} EscapeSeparatorsNone(s: string, sep: char, aw: bool)
    requires sep !in s
    ensures EscapeSeparators(s, sep, aw) == s
    decreases |s|
  {
    if s != [] {
      EscapeSeparatorsNone(s[1..], sep, IsWord(s[0]));
      assert [s[0]] + s[1..] == s;
    }
  }

  /** For a separator that `MarksSep` excludes (`+`, `&`, `\\`), line 215
      replaces each match by itself: the pass changes nothing, and such a
      separator stays live after the pre-escape. */
  lemma {:induction false} EscapeSeparatorsUnmarked(s: string, sep: char, aw: bool)
    requires !MarksSep(sep)
    ensures EscapeSeparators(s, sep, aw) == s
    decreases |s|
  {
    if s != [] {
      EscapeSeparatorsUnmarked(s[1..], sep, IsWord(s[0]));
      assert [s[0]] + s[1..] == s;
    }
  }

  /** A run of word characters passes through unchanged. */
  lemma PreEscapeWord(w: string, sep: char, c: char)
    requires !IsWord(sep) && forall j :: 0 <= j < |w| ==> IsWord(w[j])
    ensures PreEscapeAfter(w, sep, c) == w
  {
    EscapeSpecialsNone(w, c == '\\');
    EscapeUrlsNone(w, c == '\\');
    EscapeSeparatorsNone(w, sep, IsWord(c));
  }

  /** Text without `@ ! : =` and without the separator passes through
      unchanged. */
  lemma PreEscapeUntouched(w: string, sep: char, c: char)
    requires forall j :: 0 <= j < |w| ==> !IsSpecial(w[j]) && w[j] != sep
    ensures PreEscapeAfter(w, sep, c) == w
  {
    assert ':' !in w by {
      forall j | 0 <= j < |w| ensures w[j] != ':' {
        assert !IsSpecial(w[j]);
      }
    }
    EscapeSpecialsNone(w, c == '\\');
    EscapeUrlsNone(w, c == '\\');
    EscapeSeparatorsNone(w, sep, IsWord(c));
  }

  /** A separator right after a word character gets exactly one backslash,
      from line 213 when it is `@ ! : =` and from line 215 otherwise. */
  lemma PreEscapeSeparator(sep: char, c: char)
    requires ValidSep(sep) && IsWord(c)
    ensures PreEscapeAfter([sep], sep, c) == ['\\', sep]
  {
    assert c != '\\' && !IsWord('\\');
    var t1 := EscapeSpecials([sep], false);
    var t2 := EscapeUrls(t1, false);
    assert EscapeUrls([sep], true) == [sep] + EscapeUrls([], sep == '\\');
    if IsSpecial(sep) {
      assert t1 == ['\\', sep] + EscapeSpecials([], sep == '\\');
      assert t1[1..] == [sep];
      assert t2 == ['\\'] + EscapeUrls([sep], true);
      assert t2 == ['\\', sep];
      assert t2[1..] == [sep];
      assert EscapeSeparators(t2, sep, true) == ['\\'] + EscapeSeparators([sep], sep, false);
      assert EscapeSeparators([sep], sep, false) == [sep] + EscapeSeparators([], sep, IsWord(sep));
    } else {
      assert t1 == [sep] + EscapeSpecials([], sep == '\\');
      assert t2 == [sep] + EscapeUrls([], sep == '\\');
      assert EscapeSeparators([sep], sep, true) == ['\\', sep] + EscapeSeparators([], sep, IsWord(sep));
    }
  }

  /** A single quote passes through unchanged. */
  lemma PreEscapeQuote(sep: char, c: char)
    requires sep != '\''
    ensures PreEscapeAfter("'", sep, c) == "'"
  {
    assert EscapeSpecials("'", c == '\\') == "'" + EscapeSpecials([], false);
    assert EscapeUrls("'", c == '\\') == "'" + EscapeUrls([], false);
    assert EscapeSeparators("'", sep, IsWord(c)) == "'" + EscapeSeparators([], sep, false);
  }

  /** After the pre-escape pass no text starts with a sigil: a leading `@`
      or `!` gets a backslash in front of it. */
  lemma PreEscapeNoSigil(raw: string, sep: char)
    ensures var t := PreEscape(raw, sep); t == [] || (t[0] != '@' && t[0] != '!')
  {
    if raw != [] {
      var t1 := EscapeSpecials(raw, false);
      assert t1[0] == '\\' || (t1[0] == raw[0] && !IsSpecial(raw[0]));
      var t2 := EscapeUrls(t1, false);
      assert t2[0] == '\\' || t2[0] == t1[0];
      var t3 := EscapeSeparators(t2, sep, false);
      assert t3[0] == t2[0];
    }
  }

  /** The pre-escape pass only puts backslashes in front of `@ ! : =` and
      separators. */
  lemma PreEscapeInserted(raw: string, sep: char)
    requires BackslashFree(raw) && sep != '\\'
    ensures Inserted(raw, PreEscape(raw, sep), Specials + {sep})
  {
    var t1 := EscapeSpecials(raw, false);
    EscapeSpecialsInserted(raw, false);
    EscapeUrlsOnInserted(raw, t1);
    EscapeSeparatorsInserted(raw, t1, Specials, sep, false);
  }

  lemma {:induction false} InsertedAppend(a: string, ta: string, b: string, tb: string, chars: set<char>)
    requires Inserted(a, ta, chars) && Inserted(b, tb, chars)
    ensures Inserted(a + b, ta + tb, chars)
    decreases |a|, 1
  {
    if a == [] {
      assert ta == [];
      assert a + b == b && ta + tb == tb;
    } else if |ta| >= 2 && ta[0] == '\\' && ta[1] == a[0] && a[0] in chars && Inserted(a[1..], ta[2..], chars) {
      InsertedAppendEscaped(a, ta, b, tb, chars);
    } else {
      InsertedAppendCopied(a, ta, b, tb, chars);
    }
  }

  lemma {:induction false} InsertedAppendEscaped(a: string, ta: string, b: string, tb: string, chars: set<char>)
    requires a != [] && |ta| >= 2 && ta[0] == '\\' && ta[1] == a[0] && a[0] in chars
    requires Inserted(a[1..], ta[2..], chars) && Inserted(b, tb, chars)
    ensures Inserted(a + b, ta + tb, chars)
    decreases |a|, 0
  {
    var s, t := a + b, ta + tb;
    assert s[0] == a[0] && s[1..] == a[1..] + b;
    InsertedAppend(a[1..], ta[2..], b, tb, chars);
    assert t[0] == '\\' && t[1] == s[0] && t[2..] == ta[2..] + tb;
    InsertedEscaped(s, t, chars);
  }

  lemma {:induction false} InsertedAppendCopied(a: string, ta: string, b: string, tb: string, chars: set<char>)
    requires a != [] && Inserted(a, ta, chars) && Inserted(b, tb, chars)
    requires !(|ta| >= 2 && ta[0] == '\\' && ta[1] == a[0] && a[0] in chars && Inserted(a[1..], ta[2..], chars))
    ensures Inserted(a + b, ta + tb, chars)
    decreases |a|, 0
  {
    var s, t := a + b, ta + tb;
    assert s[0] == a[0] && s[1..] == a[1..] + b;
    assert ta != [] && ta[0] == a[0] && Inserted(a[1..], ta[1..], chars);
    InsertedAppend(a[1..], ta[1..], b, tb, chars);
    assert t[0] == s[0] && t[1..] == ta[1..] + tb;
    InsertedCopied(s, t, chars);
  }

  /** `t` starts with the first character of `s` behind a backslash. */
  lemma InsertedEscaped(s: string, t: string, chars: set<char>)
    requires s != [] && |t| >= 2 && t[0] == '\\' && t[1] == s[0] && s[0] in chars && Inserted(s[1..], t[2..], chars)
    ensures Inserted(s, t, chars)
  {
  }

  /** `t` starts with the first character of `s`, copied. */
  lemma InsertedCopied(s: string, t: string, chars: set<char>)
    requires s != [] && t != [] && t[0] == s[0] && Inserted(s[1..], t[1..], chars)
    ensures Inserted(s, t, chars)
  {
  }
}
