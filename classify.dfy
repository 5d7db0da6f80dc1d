/** The pure pieces of the per-token classifier in `Liquid::Tag::Parser#parse`
    (lib/liquid/tag/parser.rb:169-185): splitting a token at its last live
    separator, the sigil pattern `BOOL` and `flip_kv_bool`, `convert`, and
    splitting a key at live colons (`KEY`). */
module Classify {
  import opened Text
  import opened Values

  // ----- `k.rpartition(@sep_regexp)` -----

  /** The last index below `n` where `c` is live in `t`. */
  function LastLiveBelow(t: string, c: char, n: nat): (r: Option<nat>)
    requires n <= |t|
    ensures r.Some? ==> r.value < n && LiveAt(t, r.value, c)
    ensures r.Some? ==> forall q :: r.value < q < n ==> !LiveAt(t, q, c)
    ensures r.None? ==> forall q :: 0 <= q < n ==> !LiveAt(t, q, c)
    decreases n
  {
    if n == 0 then None
    else if LiveAt(t, n - 1, c) then Some(n - 1)
    else LastLiveBelow(t, c, n - 1)
  }

  /** `t.rpartition(/\b(?<!\\)(sep)/)`, keeping the part before the last
      live separator and the part after it; `("", t)` when there is none. */
  function RPartition(t: string, sep: char): (r: (string, string))
    ensures r.0 == [] ==> r.1 == t && NoLive(t, sep)
    ensures r.0 != [] ==> t == r.0 + [sep] + r.1 && IsWord(r.0[|r.0| - 1])
  {
    match LastLiveBelow(t, sep, |t|)
    case None => ([], t)
    case Some(p) => (t[..p], t[p + 1..])
  }

  /** A live separator in the part after `p` would be live in `t` too. */
  lemma NoLiveAfter(t: string, p: nat, sep: char)
    requires p < |t| && t[p] == sep && !IsWord(sep)
    requires forall q :: p < q < |t| ==> !LiveAt(t, q, sep)
    ensures NoLive(t[p + 1..], sep)
  {
    var v := t[p + 1..];
    forall q | 0 <= q < |v| ensures !LiveAt(v, q, sep) {
      if LiveAt(v, q, sep) {
        assert LiveAt(t, p + 1 + q, sep);
      }
    }
  }

  /** The split is at the last live separator: none is live in the value. */
  lemma RPartitionValue(t: string, sep: char)
    requires !IsWord(sep)
    ensures NoLive(RPartition(t, sep).1, sep)
  {
    match LastLiveBelow(t, sep, |t|)
    case None =>
    case Some(p) =>
      NoLiveAfter(t, p, sep);
  }

  /** A token `k + sep + v`, where `k` ends in a word character and `v` holds
      no live separator, splits into exactly `k` and `v`. */
  lemma RPartitionAt(k: string, v: string, sep: char)
    requires k != [] && IsWord(k[|k| - 1]) && !IsWord(sep) && NoLive(v, sep)
    ensures RPartition(k + [sep] + v, sep) == (k, v)
  {
    var t := k + [sep] + v;
    var p := |k|;
    assert LiveAt(t, p, sep);
    forall q | p < q < |t| ensures !LiveAt(t, q, sep) {
      if q == p + 1 {
        assert t[q - 1] == sep;
      } else {
        assert t[q] == v[q - p - 1] && t[q - 1] == v[q - p - 2];
        assert !LiveAt(v, q - p - 1, sep);
      }
    }
    LastLiveIsLast(t, sep, |t|, p);
    assert t[..p] == k;
    assert t[p + 1..] == v;
  }

  lemma {:induction false} LastLiveIsLast(t: string, c: char, n: nat, p: nat)
    requires p < n <= |t| && LiveAt(t, p, c)
    requires forall q :: p < q < n ==> !LiveAt(t, q, c)
    ensures LastLiveBelow(t, c, n) == Some(p)
    decreases n
  {
    if n - 1 != p {
      LastLiveIsLast(t, c, n - 1, p);
    }
  }

  /** A token with no live separator is all value. */
  lemma RPartitionNone(t: string, sep: char)
    requires NoLive(t, sep)
    ensures RPartition(t, sep) == ([], t)
  {
  }

  // ----- `BOOL` and `flip_kv_bool` -----

  /** `[\w:]`. */
  predicate KeyChar(c: char) {
    IsWord(c) || c == ':'
  }

  predicate KeyChars(s: string) {
    forall j :: 0 <= j < |s| ==> KeyChar(s[j])
  }

  /** `v =~ BOOL`, with `BOOL = \A(?<!\\)(!|@)([\w:]+)\Z`: a sigil and at
      least one `[\w:]`, where `\Z` also admits one final newline. */
  predicate IsBoolText(v: string) {
    && |v| >= 2
    && (v[0] == '!' || v[0] == '@')
    && (KeyChars(v[1..]) || (|v| >= 3 && v[|v| - 1] == '\n' && KeyChars(v[1..|v| - 1])))
  }

  /** `flip_kv_bool`: `v.gsub(BOOL, "\\2")` replaces the sigil and the key
      by the key alone, so the key text is `v` less its first character; the
      value is `true` for `@` and `false` for `!`. */
  function FlipKvBool(v: string): (r: (string, Value))
    requires IsBoolText(v)
    ensures [v[0]] + r.0 == v
    ensures r.1 == Bool(v[0] == '@')
    ensures KeyChars(r.0) || (r.0[|r.0| - 1] == '\n' && KeyChars(r.0[..|r.0| - 1]))
  {
    assert v[1..][..|v| - 2] == v[1..|v| - 1];
    (v[1..], Bool(v[0] == '@'))
  }

  // ----- `convert` -----

  predicate AllDigits(s: string) {
    forall j :: 0 <= j < |s| ==> IsDigit(s[j])
  }

  /** `\d+\.\d+` matches `s` as a whole. */
  predicate DecimalText(s: string) {
    var p := IndexOf(s, '.');
    0 < p < |s| - 1 && AllDigits(s[..p]) && AllDigits(s[p + 1..])
  }

  /** `v =~ FLOAT`, with `FLOAT = \A\d+\.\d+\Z`. */
  predicate IsFloatText(v: string) {
    DecimalText(v) || (|v| >= 1 && v[|v| - 1] == '\n' && DecimalText(v[..|v| - 1]))
  }

  /** `v =~ INT`, with `INT = ^\d+$`: some line of `v` is a non-empty run of
      digits (`^` and `$` match at every line boundary in Ruby). */
  predicate DigitLine(v: string)
    decreases |v|
  {
    var n := IndexOf(v, '\n');
    (n > 0 && AllDigits(v[..n])) || (n < |v| && DigitLine(v[n + 1..]))
  }

  /** The digits `String#to_i` reads: a digit, then digits where one `_`
      may stand between two of them; the underscores are dropped. */
  function LeadDigits(s: string): (d: string)
    ensures AllDigits(d)
    decreases |s|
  {
    if s == [] || !IsDigit(s[0]) then []
    else if |s| >= 3 && s[1] == '_' && IsDigit(s[2]) then [s[0]] + LeadDigits(s[2..])
    else [s[0]] + LeadDigits(s[1..])
  }

  /** `String#to_i` in base 10: blanks, an optional sign, an optional `0d`
      prefix, then the digits `LeadDigits` reads, or 0 if there are none. */
  function ToI(v: string): int {
    var s := v[Blanks(v)..];
    var neg := s != [] && s[0] == '-';
    var u := if s != [] && (s[0] == '-' || s[0] == '+') then s[1..] else s;
    var w := if |u| >= 2 && u[0] == '0' && (u[1] == 'd' || u[1] == 'D') then u[2..] else u;
    var n: int := DigitsValue(LeadDigits(w));
    if neg then -n else n
  }

  /** `convert` on a string: Float text for `FLOAT` (kept as its digits,
      without the newline `\Z` lets through), `to_i` for `INT`, otherwise the
      string itself. */
  function ConvertText(v: string): (r: Value)
    ensures r.Flt? || r.Int? || r == Str(v)
  {
    if IsFloatText(v) then Flt(if DecimalText(v) then v else v[..|v| - 1])
    else if DigitLine(v) then Int(ToI(v))
    else Str(v)
  }

  /** `convert` on the values `parse` hands it: strings are typed; `true`,
      `false` and `nil` pass through unchanged. */
  function Convert(v: Value): (r: Value)
    ensures !v.Str? ==> r == v
  {
    if v.Str? then ConvertText(v.s) else v
  }

  lemma {:induction false} LeadDigitsAll(s: string)
    requires AllDigits(s)
    ensures LeadDigits(s) == s
    decreases |s|
  {
    if s != [] {
      LeadDigitsAll(s[1..]);
    }
  }

  lemma {:induction false} IndexOfAbsent(s: string, c: char)
    requires forall j :: 0 <= j < |s| ==> s[j] != c
    ensures IndexOf(s, c) == |s|
    decreases |s|
  {
    if s != [] {
      IndexOfAbsent(s[1..], c);
    }
  }

  /** On a line without newlines `INT` means "only digits, at least one". */
  lemma DigitLineOneLine(v: string)
    requires NewlineFree(v)
    ensures DigitLine(v) <==> v != [] && AllDigits(v)
  {
    IndexOfAbsent(v, '\n');
    assert v[..|v|] == v;
  }

  /** `to_i` of a run of digits is its decimal value. */
  lemma ToIDigits(s: string)
    requires s != [] && AllDigits(s)
    ensures ToI(s) == DigitsValue(s)
  {
    assert Blanks(s) == 0;
    assert s[0..] == s;
    LeadDigitsAll(s);
    assert |s| >= 2 ==> IsDigit(s[1]);
  }

  /** What `convert` makes of a newline-free string: a Float for
      digits-point-digits, the Integer they spell for digits alone, and the
      string unchanged otherwise. */
  lemma ConvertOneLine(v: string)
    requires NewlineFree(v)
    ensures ConvertText(v) == if DecimalText(v) then Flt(v)
                              else if v != [] && AllDigits(v) then Int(DigitsValue(v))
                              else Str(v)
  {
    DigitLineOneLine(v);
    if v != [] && AllDigits(v) {
      ToIDigits(v);
      assert !DecimalText(v) by {
        IndexOfAbsent(v, '.');
      }
    }
  }

  /** One line of text that does not start with a digit stays a string. */
  lemma ConvertKeepsText(v: string)
    requires NewlineFree(v) && v != [] && !IsDigit(v[0])
    ensures ConvertText(v) == Str(v)
  {
    ConvertOneLine(v);
  }

  /** The decimal text of a natural number converts back to that number. */
  lemma ConvertNat(n: nat)
    ensures ConvertText(NatToString(n)) == Int(n)
  {
    var s := NatToString(n);
    assert NewlineFree(s) by {
      forall j | 0 <= j < |s| ensures s[j] != '\n' {
        assert IsDigit(s[j]);
      }
    }
    ConvertOneLine(s);
    DigitsRoundTrip(n);
    assert !DecimalText(s) by {
      IndexOfAbsent(s, '.');
    }
  }

  // ----- `keys.split(KEY)` -----

  /** The pieces of `k` between live colons, from the right. */
  function SplitAll(k: string): (segs: seq<string>)
    ensures |segs| > 0
    decreases |k|
  {
    match LastLiveBelow(k, ':', |k|)
    case None => [k]
    case Some(p) => SplitAll(k[..p]) + [k[p + 1..]]
  }

  /** `keys.split(KEY)` with `KEY = \b(?<!\\):`. Ruby drops trailing empty
      fields; only the last piece can be empty, and `"".split` is `[]`. */
  function SplitKey(k: string): (segs: seq<string>)
  {
    var s := SplitAll(k);
    if s[|s| - 1] == [] then s[..|s| - 1] else s
  }

  /** The key path of `keys.split(KEY).map(&:to_sym)`. An empty list of keys
      makes `build_hash` return the top hash and `keys.last` be `nil`, which
      is the path `[nil]`. */
  function KeyPath(k: string): (path: seq<Key>)
    ensures |path| > 0
  {
    var segs := SplitKey(k);
    if segs == [] then [NilKey] else Syms(segs)
  }

  function Syms(segs: seq<string>): seq<Key>
  {
    seq(|segs|, j requires 0 <= j < |segs| => Sym(segs[j]))
  }

  /** Segments joined with `:`. */
  function JoinColons(segs: seq<string>): string
    decreases |segs|
  {
    if segs == [] then [] else if |segs| == 1 then segs[0] else JoinColons(segs[..|segs| - 1]) + [':'] + segs[|segs| - 1]
  }

  /** Segments that `split(KEY)` reads back from their join: non-empty, no
      live colon inside, and a word character before each joining colon. */
  predicate KeySegments(segs: seq<string>) {
    && (forall j :: 0 <= j < |segs| ==> segs[j] != [] && NoLive(segs[j], ':'))
    && (forall j :: 0 <= j < |segs| - 1 ==> IsWord(segs[j][|segs[j]| - 1]))
  }

  lemma {:induction false} SplitAllJoin(segs: seq<string>)
    requires segs != [] && KeySegments(segs)
    ensures SplitAll(JoinColons(segs)) == segs
    decreases |segs|
  {
    if |segs| == 1 {
      RPartitionNone(segs[0], ':');
    } else {
      var init := segs[..|segs| - 1];
      var k := JoinColons(init);
      var v := segs[|segs| - 1];
      assert KeySegments(init) by {
        forall j | 0 <= j < |init| ensures init[j] == segs[j] {
        }
      }
      JoinColonsLast(init);
      SplitAllJoin(init);
      var t := k + [':'] + v;
      RPartitionAt(k, v, ':');
      assert LastLiveBelow(t, ':', |t|) == Some(|k|);
      assert t[..|k|] == k && t[|k| + 1..] == v;
      assert segs == init + [v];
    }
  }

  lemma {:induction false} JoinColonsLast(segs: seq<string>)
    requires segs != [] && KeySegments(segs) && IsWord(segs[|segs| - 1][|segs[|segs| - 1]| - 1])
    ensures JoinColons(segs) != [] && JoinColons(segs)[|JoinColons(segs)| - 1] == segs[|segs| - 1][|segs[|segs| - 1]| - 1]
  {
  }

  /** Splitting the join of key segments gives the segments back. */
  lemma SplitKeyJoin(segs: seq<string>)
    requires segs != [] && KeySegments(segs)
    ensures SplitKey(JoinColons(segs)) == segs
  {
    SplitAllJoin(segs);
  }

  /** A key without a live colon is a one-segment path. */
  lemma KeyPathSingle(k: string)
    requires k != [] && NoLive(k, ':')
    ensures KeyPath(k) == [Sym(k)]
  {
    RPartitionNone(k, ':');
  }

  /** Every segment `split(KEY)` returns is non-empty. */
  lemma {:induction false} SplitAllNonEmpty(k: string)
    ensures forall j :: 0 <= j < |SplitAll(k)| - 1 ==> SplitAll(k)[j] != []
    ensures k != [] ==> SplitAll(k)[0] != []
    decreases |k|
  {
    match LastLiveBelow(k, ':', |k|)
    case None =>
    case Some(p) =>
      SplitAllNonEmpty(k[..p]);
      var s := SplitAll(k[..p]);
      assert k[..p] != [];
      assert k[p + 1..] == [] ==> true;
      forall j | 0 <= j < |SplitAll(k)| - 1 ensures SplitAll(k)[j] != [] {
        if j == |s| - 1 {
          assert SplitAll(k)[j] == s[j];
        }
      }
  }

  lemma SplitKeyNonEmpty(k: string)
    ensures forall s :: s in SplitKey(k) ==> s != []
  {
    SplitAllNonEmpty(k);
  }
}
