/** `shellsplit` (lib/liquid/tag/parser.rb:226-241), the port of Ruby's
    `Shellwords.shellsplit`, with its pattern SHELLSPLIT (lines 51-52):

      \G\s*(?>([^\s\\'"]+)|'([^']*)'|"((?:[^"\\]|\\.)*)"|(\\.?)|(\S))(\s|\z)?

    Each match skips blanks and reads one piece of a word: a bare run, a
    single-quoted run (kept literally), a double-quoted run (where only
    `\$ \` \" \\ \newline` lose their backslash), or a backslash with the
    character after it (which loses the backslash, except before a newline).
    A lone quote is an error. A blank or the end of the line after a piece
    ends the word; otherwise the next piece joins it. The quoting follows
    section 2.2 of the POSIX.1-2017 Shell Command Language. */
module ShellWords {
  import opened Text
  import opened Values

  /** One match of SHELLSPLIT: the piece's text, how many characters the
      match consumed (leading blanks, the piece, and the blank after it if
      any), and whether a blank or the end of the line came after it. A
      `Stray` match is the `(\S)` group: a quote that is never closed. */
  datatype Match = Piece(text: string, len: nat, ends: bool) | Stray

  /** The characters a double-quoted run unescapes: `$ ` " \ newline`. */
  const DoubleQuoted: set<char> := {'$', '`', '"', '\\', '\n'}

  /** `[^\s\\'"]`. */
  predicate BareChar(c: char) {
    !IsSpace(c) && c != '\\' && c != '\'' && c != '"'
  }

  /** `[^\s\\'"]+` is greedy: the length of the leading bare run. */
  function BareRun(s: string): (n: nat)
    ensures n <= |s|
    ensures forall j :: 0 <= j < n ==> BareChar(s[j])
    ensures n < |s| ==> !BareChar(s[n])
    decreases |s|
  {
    if s != [] && BareChar(s[0]) then 1 + BareRun(s[1..]) else 0
  }

  function Shift(o: Option<nat>, k: nat): Option<nat> {
    match o
    case None => None
    case Some(n) => Some(n + k)
  }

  /** `(?:[^"\\]|\\.)*"`: the index of the closing double quote, skipping
      every backslash together with the character after it. */
  function DoubleQuoteEnd(s: string): (r: Option<nat>)
    ensures r.Some? ==> r.value < |s| && s[r.value] == '"'
    decreases |s|
  {
    if s == [] then None
    else if s[0] == '"' then Some(0)
    else if s[0] == '\\' then (if |s| >= 2 then Shift(DoubleQuoteEnd(s[2..]), 2) else None)
    else Shift(DoubleQuoteEnd(s[1..]), 1)
  }

  /** The atomic group at the start of `t`: the text it adds to the field and
      the number of characters it consumed, or `None` for `(\S)`. */
  function Atom(t: string): (r: Option<(string, nat)>)
    requires t != [] && !IsSpace(t[0])
    ensures r.Some? ==> 0 < r.value.1 <= |t|
    ensures r.None? <==> (t[0] == '\'' && '\'' !in t[1..]) || (t[0] == '"' && DoubleQuoteEnd(t[1..]).None?)
  {
    if t[0] == '\'' then
      var k := IndexOf(t[1..], '\'');
      if k == |t| - 1 then None else Some((t[1..k + 1], k + 2))
    else if t[0] == '"' then
      match DoubleQuoteEnd(t[1..])
      case None => None
      case Some(k) => Some((Unbackslash(t[1..k + 1], DoubleQuoted), k + 2))
    else if t[0] == '\\' then
      // `(\\.?)` then `e.gsub(/\\(.)/, '\1')`, whose `.` does not match a newline
      if |t| == 1 then Some((t, 1))
      else if t[1] == '\n' then Some((t[..2], 2))
      else Some(([t[1]], 2))
    else
      var n := BareRun(t);
      Some((t[..n], n))
  }

  /** One match of SHELLSPLIT at the start of `s`; `None` when only blanks
      are left, which ends the scan. */
  function NextMatch(s: string): (m: Option<Match>)
    ensures m.Some? && m.value.Piece? ==> 0 < m.value.len <= |s|
  {
    var b := Blanks(s);
    if b == |s| then None else NextTail(b, s[b..])
  }

  /** The match once the `b` leading blanks are behind, at `t`: the atomic
      group, then `(\s|\z)?`. */
  function NextTail(b: nat, t: string): (m: Option<Match>)
    requires t != [] && !IsSpace(t[0])
    ensures m.Some? && m.value.Piece? ==> b < m.value.len <= b + |t|
  {
    match Atom(t)
    case None => Some(Stray)
    case Some(a) =>
      var n := a.1;
      Some(if n == |t| then Piece(a.0, b + n, true)
           else if IsSpace(t[n]) then Piece(a.0, b + n + 1, true)
           else Piece(a.0, b + n, false))
  }

  function Cons(w: string, r: Result<seq<string>>): Result<seq<string>> {
    match r
    case Ok(ws) => Ok([w] + ws)
    case Err(e) => Err(e)
  }

  function Prefixed(out: seq<string>, r: Result<seq<string>>): Result<seq<string>> {
    match r
    case Ok(ws) => Ok(out + ws)
    case Err(e) => Err(e)
  }

  /** The words of the rest `s` of the line, when `field` holds the part of
      the current word read so far. */
  function Scan(s: string, field: string): Result<seq<string>>
    decreases |s|
  {
    match NextMatch(s)
    case None => Ok([])
    case Some(Stray) => Err(UnmatchedQuote)
    case Some(Piece(text, n, ends)) =>
      if ends then Cons(field + text, Scan(s[n..], ""))
      else Scan(s[n..], field + text)
  }

  /** What `shellsplit(line)` returns or raises. */
  function Tokens(line: string): Result<seq<string>> {
    Scan(line, "")
  }

  /** The `scan` loop of `shellsplit`: `field` collects the pieces of the
      current word, `out` the finished words. */
  method ShellSplit(line: string) returns (r: Result<seq<string>>)
    ensures r == Tokens(line)
  {
    var out: seq<string> := [];
    var field := "";
    var rest := line;
    PrefixedNone(Tokens(line));
    while true
      invariant Tokens(line) == Prefixed(out, Scan(rest, field))
      decreases |rest|
    {
      var m := NextMatch(rest);
      if m.None? {
        assert out + [] == out;
        return Ok(out);
      }
      if m.value.Stray? {
        return Err(UnmatchedQuote);
      }
      var w := field + m.value.text;
      ScanAdvance(rest, out, field);
      if m.value.ends {
        out := out + [w];
        field := "";
      } else {
        field := w;
      }
      rest := rest[m.value.len..];
    }
  }

  /** One match moves the loop of `ShellSplit` on. */
  lemma ScanAdvance(s: string, out: seq<string>, field: string)
    requires NextMatch(s).Some? && NextMatch(s).value.Piece?
    ensures var m := NextMatch(s).value;
      var w := field + m.text;
      Prefixed(out, Scan(s, field)) ==
        if m.ends then Prefixed(out + [w], Scan(s[m.len..], "")) else Prefixed(out, Scan(s[m.len..], w))
  {
    var m := NextMatch(s).value;
    ScanPiece(s, field);
    if m.ends {
      PrefixedCons(out, field + m.text, Scan(s[m.len..], ""));
    }
  }

  /** One step of `Scan` over a piece. */
  lemma ScanPiece(s: string, field: string)
    requires NextMatch(s).Some? && NextMatch(s).value.Piece?
    ensures var m := NextMatch(s).value;
      Scan(s, field) == if m.ends then Cons(field + m.text, Scan(s[m.len..], "")) else Scan(s[m.len..], field + m.text)
  {
  }

  lemma PrefixedNone(r: Result<seq<string>>)
    ensures Prefixed([], r) == r
  {
    if r.Ok? {
      assert [] + r.value == r.value;
    }
  }

  lemma PrefixedCons(out: seq<string>, w: string, r: Result<seq<string>>)
    ensures Prefixed(out, Cons(w, r)) == Prefixed(out + [w], r)
  {
    if r.Ok? {
      assert out + ([w] + r.value) == (out + [w]) + r.value;
    }
  }

  // ----- one piece at a time -----

  /** How the scan goes on after a piece whose text made the field `f`. */
  function Continue(f: string, rest: string): Result<seq<string>> {
    if rest == [] then Ok([f])
    else if IsSpace(rest[0]) then Cons(f, Scan(rest[1..], ""))
    else Scan(rest, f)
  }

  /** The scan of an atom of `n` characters with text `text`, followed by `rest`. */
  lemma ScanAtom(t: string, text: string, n: nat, rest: string, f: string)
    requires t != [] && !IsSpace(t[0]) && Atom(t + rest) == Some((text, n)) && n == |t|
    ensures Scan(t + rest, f) == Continue(f + text, rest)
  {
    var s := t + rest;
    assert s[0] == t[0];
    assert Blanks(s) == 0;
    assert s[0..] == s;
    if rest == [] {
      assert s == t;
      assert NextMatch(s) == Some(Piece(text, n, true));
      assert s[n..] == [];
      assert Scan(s[n..], "") == Ok([]);
      assert Scan(s, f) == Cons(f + text, Scan(s[n..], ""));
      assert [f + text] + [] == [f + text];
    } else if IsSpace(rest[0]) {
      assert s[n] == rest[0];
      assert NextMatch(s) == Some(Piece(text, n + 1, true));
      assert s[n + 1..] == rest[1..];
    } else {
      assert s[n] == rest[0];
      assert NextMatch(s) == Some(Piece(text, n, false));
      assert s[n..] == rest;
    }
  }

  /** A blank in front only lengthens the next match by one. */
  lemma NextMatchBlank(s: string)
    requires s != [] && IsSpace(s[0])
    ensures NextMatch(s[1..]).None? ==> NextMatch(s).None?
    ensures NextMatch(s[1..]) == Some(Stray) ==> NextMatch(s) == Some(Stray)
    ensures NextMatch(s[1..]).Some? && NextMatch(s[1..]).value.Piece? ==>
      var m := NextMatch(s[1..]).value;
      NextMatch(s) == Some(Piece(m.text, m.len + 1, m.ends))
  {
    var b := Blanks(s[1..]);
    BlanksCons(s);
    if b < |s[1..]| {
      var t := s[1..][b..];
      assert s[1 + b..] == t;
      NextMatchAt(s, 1 + b, t);
      NextMatchAt(s[1..], b, t);
      NextTailShift(b, t);
    }
  }

  lemma BlanksCons(s: string)
    requires s != [] && IsSpace(s[0])
    ensures Blanks(s) == 1 + Blanks(s[1..])
  {
  }

  /** `NextMatch` past `b` leading blanks. */
  lemma NextMatchAt(s: string, b: nat, t: string)
    requires Blanks(s) == b < |s| && t == s[b..]
    ensures NextMatch(s) == NextTail(b, t)
  {
  }

  lemma NextTailShift(b: nat, t: string)
    requires t != [] && !IsSpace(t[0])
    ensures NextTail(b, t) == Some(Stray) ==> NextTail(b + 1, t) == Some(Stray)
    ensures NextTail(b, t).Some? && NextTail(b, t).value.Piece? ==>
      var m := NextTail(b, t).value;
      NextTail(b + 1, t) == Some(Piece(m.text, m.len + 1, m.ends))
  {
  }

  /** A blank before the rest of the line is skipped. */
  lemma ScanBlank(s: string, f: string)
    requires s != [] && IsSpace(s[0])
    ensures Scan(s, f) == Scan(s[1..], f)
  {
    if NextMatch(s[1..]).Some? && NextMatch(s[1..]).value.Piece? {
      ScanBlankPiece(s, f);
    } else {
      NextMatchBlank(s);
      ScanNoPiece(s, f);
      ScanNoPiece(s[1..], f);
    }
  }

  lemma ScanBlankPiece(s: string, f: string)
    requires s != [] && IsSpace(s[0])
    requires NextMatch(s[1..]).Some? && NextMatch(s[1..]).value.Piece?
    ensures Scan(s, f) == Scan(s[1..], f)
  {
    var m := NextMatch(s[1..]).value;
    NextMatchBlank(s);
    ScanPieceAt(s, f, m.text, m.len + 1, m.ends);
    ScanPieceAt(s[1..], f, m.text, m.len, m.ends);
    assert s[m.len + 1..] == s[1..][m.len..];
  }

  /** `Scan` over a known piece. */
  lemma ScanPieceAt(s: string, f: string, text: string, n: nat, ends: bool)
    requires NextMatch(s) == Some(Piece(text, n, ends))
    ensures Scan(s, f) == if ends then Cons(f + text, Scan(s[n..], "")) else Scan(s[n..], f + text)
  {
  }

  /** The scan ends at a match that is not a piece. */
  lemma ScanNoPiece(s: string, f: string)
    requires !(NextMatch(s).Some? && NextMatch(s).value.Piece?)
    ensures Scan(s, f) == if NextMatch(s).None? then Ok([]) else Err(UnmatchedQuote)
  {
  }

  /** Only blanks: no words. */
  lemma ScanBlanks(s: string, f: string)
    requires forall j :: 0 <= j < |s| ==> IsSpace(s[j])
    ensures Scan(s, f) == Ok([])
  {
    assert Blanks(s) == |s|;
  }

  /** A bare run is read up to the next blank, backslash or quote. */
  lemma ScanBare(w: string, rest: string, f: string)
    requires w != [] && forall j :: 0 <= j < |w| ==> BareChar(w[j])
    requires rest == [] || !BareChar(rest[0])
    ensures Scan(w + rest, f) == Continue(f + w, rest)
  {
    var s := w + rest;
    assert BareRun(s) == |w| by {
      BareRunPrefix(w, rest);
    }
    assert s[..|w|] == w;
    ScanAtom(w, w, |w|, rest, f);
  }

  /** A bare run can be read one character at a time. */
  lemma ScanBareChar(c: char, rest: string, f: string)
    requires BareChar(c)
    ensures Scan([c] + rest, f) == Continue(f + [c], rest)
  {
    var n := BareRun(rest);
    var w := rest[..n];
    var r2 := rest[n..];
    assert rest == w + r2;
    assert [c] + rest == ([c] + w) + r2;
    ScanBare([c] + w, r2, f);
    if n > 0 {
      ScanBare(w, r2, f + [c]);
      assert f + [c] + w == f + ([c] + w);
    } else {
      assert [c] + w == [c];
    }
  }

  lemma {:induction false} BareRunPrefix(w: string, rest: string)
    requires forall j :: 0 <= j < |w| ==> BareChar(w[j])
    requires rest == [] || !BareChar(rest[0])
    ensures BareRun(w + rest) == |w|
    decreases |w|
  {
    if w == [] {
      assert w + rest == rest;
    } else {
      assert (w + rest)[1..] == w[1..] + rest;
      BareRunPrefix(w[1..], rest);
    }
  }

  /** A single-quoted run is kept exactly as written. */
  lemma ScanSingleQuoted(t: string, rest: string, f: string)
    requires '\'' !in t
    ensures Scan("'" + t + "'" + rest, f) == Continue(f + t, rest)
  {
    var p := "'" + t + "'";
    var s := p + rest;
    assert s[1..] == t + ("'" + rest);
    assert IndexOf(s[1..], '\'') == |t| by {
      IndexOfPrefix(t, "'" + rest, '\'');
    }
    assert s[1..|t| + 1] == t;
    ScanAtom(p, t, |t| + 2, rest, f);
  }

  lemma {:induction false} IndexOfPrefix(t: string, rest: string, c: char)
    requires c !in t && rest != [] && rest[0] == c
    ensures IndexOf(t + rest, c) == |t|
    decreases |t|
  {
    if t == [] {
      assert t + rest == rest;
    } else {
      assert (t + rest)[1..] == t[1..] + rest;
      IndexOfPrefix(t[1..], rest, c);
    }
  }

  /** `d` matches `(?:[^"\\]|\\.)*`, the body of a double-quoted run. */
  predicate DoubleQuotedBody(d: string)
    decreases |d|
  {
    d == []
    || (d[0] == '\\' && |d| >= 2 && DoubleQuotedBody(d[2..]))
    || (d[0] != '"' && d[0] != '\\' && DoubleQuotedBody(d[1..]))
  }

  lemma {:induction false} DoubleQuoteEndAfterBody(d: string, rest: string)
    requires DoubleQuotedBody(d) && rest != [] && rest[0] == '"'
    ensures DoubleQuoteEnd(d + rest) == Some(|d|)
    decreases |d|
  {
    var s := d + rest;
    if d == [] {
      assert s == rest;
    } else if d[0] == '\\' {
      assert |d| >= 2 && DoubleQuotedBody(d[2..]);
      assert s[2..] == d[2..] + rest;
      DoubleQuoteEndAfterBody(d[2..], rest);
      DoubleQuoteEndSkip(s, 2);
    } else {
      assert d[0] != '"' && DoubleQuotedBody(d[1..]);
      assert s[1..] == d[1..] + rest;
      DoubleQuoteEndAfterBody(d[1..], rest);
      DoubleQuoteEndSkip(s, 1);
    }
  }

  /** Skipping a backslash pair or a plain character before the search. */
  lemma DoubleQuoteEndSkip(s: string, k: nat)
    requires (k == 2 && |s| >= 2 && s[0] == '\\') || (k == 1 && s != [] && s[0] != '"' && s[0] != '\\')
    ensures DoubleQuoteEnd(s) == Shift(DoubleQuoteEnd(s[k..]), k)
  {
  }

  /** A double-quoted run contributes its body with `\$ \` \" \\ \newline`
      unescaped. */
  lemma ScanDoubleQuoted(d: string, rest: string, f: string)
    requires DoubleQuotedBody(d)
    ensures Scan("\"" + d + "\"" + rest, f) == Continue(f + Unbackslash(d, DoubleQuoted), rest)
  {
    var p := "\"" + d + "\"";
    var s := p + rest;
    assert s[1..] == d + ("\"" + rest);
    DoubleQuoteEndAfterBody(d, "\"" + rest);
    assert s[1..|d| + 1] == d;
    ScanAtom(p, Unbackslash(d, DoubleQuoted), |d| + 2, rest, f);
  }

  /** Outside quotes a backslash makes the next character literal and is
      dropped. */
  lemma ScanBackslash(c: char, rest: string, f: string)
    requires c != '\n'
    ensures Scan(['\\', c] + rest, f) == Continue(f + [c], rest)
  {
    var s := ['\\', c] + rest;
    assert s == ['\\', c] + rest;
    ScanAtom(['\\', c], [c], 2, rest, f);
  }

  // ----- a reference for text without quotes or backslashes -----

  predicate Plain(s: string) {
    forall j :: 0 <= j < |s| ==> s[j] != '\'' && s[j] != '"' && s[j] != '\\'
  }

  /** The pieces of `s` between single blanks, empty ones included. */
  function Pieces(s: string): (ps: seq<string>)
    ensures |ps| > 0
    decreases |s|
  {
    if s == [] then [""]
    else if IsSpace(s[0]) then [""] + Pieces(s[1..])
    else var p := Pieces(s[1..]); [[s[0]] + p[0]] + p[1..]
  }

  function NonEmpty(ps: seq<string>): seq<string> {
    if ps == [] then [] else (if ps[0] == [] then [] else [ps[0]]) + NonEmpty(ps[1..])
  }

  /** The blank-separated fields of `s`. */
  function Fields(s: string): seq<string> {
    NonEmpty(Pieces(s))
  }

  lemma {:induction false} PiecesOfWord(w: string, rest: string)
    requires forall j :: 0 <= j < |w| ==> !IsSpace(w[j])
    ensures Pieces(w + rest) == [w + Pieces(rest)[0]] + Pieces(rest)[1..]
    decreases |w|
  {
    if w == [] {
      assert w + rest == rest;
      assert w + Pieces(rest)[0] == Pieces(rest)[0];
      assert [Pieces(rest)[0]] + Pieces(rest)[1..] == Pieces(rest);
    } else {
      assert (w + rest)[1..] == w[1..] + rest;
      PiecesOfWord(w[1..], rest);
      assert [w[0]] + (w[1..] + Pieces(rest)[0]) == w + Pieces(rest)[0];
    }
  }

  /** One word without blanks is one field. */
  lemma FieldsWord(w: string)
    requires w != [] && forall j :: 0 <= j < |w| ==> !IsSpace(w[j])
    ensures Fields(w) == [w]
  {
    PiecesOfWord(w, "");
    assert w + "" == w;
    assert Pieces("") == [""];
    assert Pieces(w) == [w];
    assert NonEmpty([w]) == [w] + NonEmpty([]);
  }

  /** A word and a blank start the list of fields. */
  lemma FieldsCons(w: string, rest: string)
    requires w != [] && forall j :: 0 <= j < |w| ==> !IsSpace(w[j])
    ensures Fields(w + " " + rest) == [w] + Fields(rest)
  {
    assert w + " " + rest == w + (" " + rest);
    PiecesOfWord(w, " " + rest);
    assert (" " + rest)[1..] == rest;
    assert Pieces(" " + rest) == [""] + Pieces(rest);
    assert w + "" == w;
    NonEmptyAppend([w], Pieces(rest));
  }

  /** Words joined with single spaces. */
  function Unwords(ws: seq<string>): string
    decreases |ws|
  {
    if ws == [] then "" else if |ws| == 1 then ws[0] else ws[0] + " " + Unwords(ws[1..])
  }

  /** Splitting words joined with single spaces gives the words back. */
  lemma {:induction false} FieldsUnwords(ws: seq<string>)
    requires forall i :: 0 <= i < |ws| ==> ws[i] != [] && forall j :: 0 <= j < |ws[i]| ==> !IsSpace(ws[i][j])
    ensures Fields(Unwords(ws)) == ws
    decreases |ws|
  {
    if |ws| == 1 {
      FieldsWord(ws[0]);
    } else if |ws| > 1 {
      FieldsUnwords(ws[1..]);
      FieldsCons(ws[0], Unwords(ws[1..]));
      assert ws == [ws[0]] + ws[1..];
    }
  }

  lemma {:induction false} NonEmptyAppend(a: seq<string>, b: seq<string>)
    ensures NonEmpty(a + b) == NonEmpty(a) + NonEmpty(b)
    decreases |a|
  {
    if a == [] {
      assert a + b == b;
    } else {
      assert (a + b)[1..] == a[1..] + b;
      NonEmptyAppend(a[1..], b);
    }
  }

  /** On text without quotes and backslashes `shellsplit` is a plain split
      at runs of blanks, and blanks alone give no word. */
  lemma TokensOfPlain(s: string)
    requires Plain(s)
    ensures Tokens(s) == Ok(Fields(s))
  {
    ScanPlain(s);
  }

  lemma {:induction false} ScanPlain(s: string)
    requires Plain(s)
    ensures Scan(s, "") == Ok(Fields(s))
    decreases |s|, 1
  {
    if s == [] {
    } else if IsSpace(s[0]) {
      ScanBlank(s, "");
      assert [s[0]] + s[1..] == s;
      PlainSuffix(s, 1);
      ScanPlain(s[1..]);
      assert Pieces(s) == [""] + Pieces(s[1..]);
      NonEmptyAppend([""], Pieces(s[1..]));
      assert [""][1..] == [];
      assert NonEmpty([""]) == [];
      assert Fields(s) == [] + Fields(s[1..]);
      assert Fields(s) == Fields(s[1..]);
      assert Scan(s, "") == Scan(s[1..], "");
    } else {
      ScanPlainWord(s);
    }
  }

  lemma PlainSuffix(s: string, k: nat)
    requires Plain(s) && k <= |s|
    ensures Plain(s[k..])
  {
    forall j | 0 <= j < |s[k..]|
      ensures s[k..][j] != '\'' && s[k..][j] != '"' && s[k..][j] != '\\'
    {
      assert s[k..][j] == s[k + j];
    }
  }

  /** A plain line that starts with a word. */
  lemma {:induction false} ScanPlainWord(s: string)
    requires Plain(s) && s != [] && !IsSpace(s[0])
    ensures Scan(s, "") == Ok(Fields(s))
    decreases |s|, 0
  {
    var n := BareRun(s);
    var w, rest := s[..n], s[n..];
    assert s == w + rest;
    assert BareChar(s[0]);
    assert rest != [] ==> rest[0] == s[n] && IsSpace(rest[0]);
    ScanBare(w, rest, "");
    assert "" + w == w;
    PiecesOfWord(w, rest);
    if rest == [] {
      assert Pieces(rest) == [""];
      assert w + "" == w;
      assert Pieces(s) == [w];
      assert NonEmpty([w]) == [w] + NonEmpty([]);
      assert Fields(s) == [w];
    } else {
      PlainSuffix(s, n + 1);
      assert rest[1..] == s[n + 1..];
      ScanPlain(rest[1..]);
      assert Pieces(rest) == [""] + Pieces(rest[1..]);
      assert Pieces(rest)[0] == "" && Pieces(rest)[1..] == Pieces(rest[1..]);
      assert w + "" == w;
      assert Pieces(s) == [w] + Pieces(rest[1..]);
      assert NonEmpty([w]) == [w] + NonEmpty([]);
      NonEmptyAppend([w], Pieces(rest[1..]));
    }
  }

  // ----- quoting round trip -----

  /** A word written as a double-quoted run, with `"` and `\` escaped. */
  function Quote(t: string): string {
    "\"" + QuoteBody(t) + "\""
  }

  function QuoteBody(t: string): string
    decreases |t|
  {
    if t == [] then []
    else (if t[0] == '"' || t[0] == '\\' then ['\\', t[0]] else [t[0]]) + QuoteBody(t[1..])
  }

  /** Words written out quoted, one blank between them. */
  function JoinQuoted(ts: seq<string>): string
    decreases |ts|
  {
    if ts == [] then "" else if |ts| == 1 then Quote(ts[0]) else Quote(ts[0]) + " " + JoinQuoted(ts[1..])
  }

  lemma {:induction false} QuoteBodyIsBody(t: string)
    ensures DoubleQuotedBody(QuoteBody(t))
    ensures Unbackslash(QuoteBody(t), DoubleQuoted) == t
    decreases |t|
  {
    if t != [] {
      QuoteBodyIsBody(t[1..]);
      var q := QuoteBody(t);
      var r := QuoteBody(t[1..]);
      if t[0] == '"' || t[0] == '\\' {
        assert q[2..] == r;
      } else {
        assert q[1..] == r;
      }
      assert [t[0]] + t[1..] == t;
    }
  }

  /** Quoting a list of words and splitting the result gives the same words
      back. */
  lemma {:induction false} QuoteRoundTrip(ts: seq<string>)
    ensures Tokens(JoinQuoted(ts)) == Ok(ts)
    decreases |ts|
  {
    if ts == [] {
      ScanBlanks("", "");
    } else if |ts| == 1 {
      QuoteOne(ts[0]);
      assert ts == [ts[0]];
    } else {
      QuoteRoundTrip(ts[1..]);
      QuoteFirst(ts[0], ts[1..]);
      assert JoinQuoted(ts) == Quote(ts[0]) + " " + JoinQuoted(ts[1..]);
      assert [ts[0]] + ts[1..] == ts;
    }
  }

  lemma QuoteOne(t: string)
    ensures Tokens(Quote(t)) == Ok([t])
  {
    QuoteBodyIsBody(t);
    var b := QuoteBody(t);
    ScanDoubleQuoted(b, "", "");
    assert "\"" + b + "\"" + "" == Quote(t);
    assert "" + t == t;
  }

  lemma QuoteFirst(t: string, ts: seq<string>)
    requires Tokens(JoinQuoted(ts)) == Ok(ts)
    ensures Tokens(Quote(t) + " " + JoinQuoted(ts)) == Ok([t] + ts)
  {
    QuoteBodyIsBody(t);
    var b := QuoteBody(t);
    var rest := " " + JoinQuoted(ts);
    ScanDoubleQuoted(b, rest, "");
    assert "\"" + b + "\"" + rest == Quote(t) + " " + JoinQuoted(ts);
    assert rest[1..] == JoinQuoted(ts);
    assert "" + t == t;
  }

  // ----- errors -----

  /** A quote that is never closed makes the whole split fail. */
  lemma UnmatchedQuoteFails(p: string, q: char, t: string)
    requires Plain(p) && (q == '\'' || q == '"') && q !in t
    ensures Tokens(p + [q] + t).Err?
  {
    ScanUnmatched(p, q, t, "");
  }

  lemma {:induction false} DoubleQuoteEndNone(t: string)
    requires '"' !in t
    ensures DoubleQuoteEnd(t).None?
    decreases |t|
  {
    if t != [] {
      if t[0] == '\\' && |t| >= 2 {
        assert forall c :: c in t[2..] ==> c in t;
        DoubleQuoteEndNone(t[2..]);
      } else if t[0] != '\\' {
        assert forall c :: c in t[1..] ==> c in t;
        DoubleQuoteEndNone(t[1..]);
      }
    }
  }

  lemma {:induction false} ScanUnmatched(p: string, q: char, t: string, f: string)
    requires Plain(p) && (q == '\'' || q == '"') && q !in t
    ensures Scan(p + [q] + t, f).Err?
    decreases |p|
  {
    var s := p + [q] + t;
    if p == [] {
      assert s == [q] + t;
      UnmatchedAlone(q, t, f);
    } else if IsSpace(p[0]) {
      assert s[1..] == p[1..] + [q] + t;
      ScanBlank(s, f);
      ScanUnmatched(p[1..], q, t, f);
    } else {
      var n := BareRun(p);
      var w, rest := p[..n], p[n..];
      BareSplit(p, q, t);
      if rest == [] {
        ScanUnmatched([], q, t, f + w);
        assert [] + [q] + t == [q] + t;
      } else {
        PlainSuffix(p, n + 1);
        assert p[n + 1..] == rest[1..];
        ScanUnmatched(rest[1..], q, t, "");
      }
      UnmatchedAfterBare(w, rest + [q] + t, f);
    }
  }

  /** A quote that is never closed, at the start of the rest of the line. */
  lemma UnmatchedAlone(q: char, t: string, f: string)
    requires (q == '\'' || q == '"') && q !in t
    ensures Scan([q] + t, f).Err?
  {
    var s := [q] + t;
    assert Blanks(s) == 0;
    assert s[0..] == s;
    assert s[1..] == t;
    if q == '"' {
      DoubleQuoteEndNone(t);
    }
    NextMatchAt(s, 0, s);
  }

  /** The bare run at the start of a plain `p` that does not start with a
      blank, and what follows it. */
  lemma BareSplit(p: string, q: char, t: string)
    requires Plain(p) && p != [] && !IsSpace(p[0]) && (q == '\'' || q == '"')
    ensures var n := BareRun(p);
      var after := p[n..] + [q] + t;
      n > 0 && p + [q] + t == p[..n] + after && !BareChar(after[0]) &&
      (p[n..] == [] ==> after == [q] + t) &&
      (p[n..] != [] ==> IsSpace(after[0]) && after[1..] == p[n..][1..] + [q] + t)
  {
    var n := BareRun(p);
    var w, rest := p[..n], p[n..];
    assert BareChar(p[0]);
    assert p == w + rest;
    var after := rest + [q] + t;
    assert p + [q] + t == w + after;
    if rest != [] {
      assert rest[0] == p[n];
      assert after[0] == rest[0];
      assert after[1..] == rest[1..] + [q] + t;
    }
  }

  /** After a bare run, the scan fails when what follows does. */
  lemma UnmatchedAfterBare(w: string, after: string, f: string)
    requires w != [] && (forall j :: 0 <= j < |w| ==> BareChar(w[j])) && after != [] && !BareChar(after[0])
    requires !IsSpace(after[0]) ==> Scan(after, f + w).Err?
    requires IsSpace(after[0]) ==> Scan(after[1..], "").Err?
    ensures Scan(w + after, f).Err?
  {
    ScanBare(w, after, f);
  }

  /** The split fails only where the line holds a quote. */
  lemma {:induction false} ErrorNeedsQuote(s: string, f: string)
    requires Scan(s, f).Err?
    ensures '\'' in s || '"' in s
    decreases |s|
  {
    match NextMatch(s)
    case None =>
    case Some(Stray) =>
      var b := Blanks(s);
      assert s[b..][0] == s[b];
    case Some(Piece(text, n, ends)) =>
      if ends {
        ErrorNeedsQuote(s[n..], "");
      } else {
        ErrorNeedsQuote(s[n..], f + text);
      }
      assert forall c :: c in s[n..] ==> c in s;
  }

  // ----- characters of the words -----

  lemma AtomChars(t: string)
    requires t != [] && !IsSpace(t[0]) && Atom(t).Some?
    ensures forall c :: c in Atom(t).value.0 ==> c in t
  {
    var a := Atom(t).value;
    forall c | c in a.0 ensures c in t {
      if t[0] == '"' {
        var k := DoubleQuoteEnd(t[1..]).value;
        UnbackslashChars(t[1..k + 1], DoubleQuoted, c);
      }
    }
  }

  /** Every character of a word comes from the line (or from the part of the
      word read before it). */
  lemma {:induction false} TokenChars(s: string, f: string)
    requires Scan(s, f).Ok?
    ensures forall w, c :: w in Scan(s, f).value && c in w ==> c in s || c in f
    decreases |s|
  {
    match NextMatch(s)
    case None =>
    case Some(Stray) =>
    case Some(Piece(text, n, ends)) =>
      var b := Blanks(s);
      AtomChars(s[b..]);
      assert forall c :: c in s[b..] ==> c in s;
      assert forall c :: c in s[n..] ==> c in s;
      var f' := if ends then "" else f + text;
      TokenChars(s[n..], f');
  }

  /** A line without newlines gives words without newlines. */
  lemma TokensNewlineFree(line: string)
    requires NewlineFree(line) && Tokens(line).Ok?
    ensures forall w :: w in Tokens(line).value ==> NewlineFree(w)
  {
    TokenChars(line, "");
    forall w | w in Tokens(line).value ensures NewlineFree(w) {
      forall j | 0 <= j < |w| ensures w[j] != '\n' {
        assert w[j] in w;
      }
    }
  }
}
