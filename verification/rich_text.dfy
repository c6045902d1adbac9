/** Rich-text flattening and the narrow escaping policy of the renderer:
    only `<` and `>` are escaped (to `&lt;` and `&gt;`); `&` and quotes pass
    through unchanged. */
module RichText {
  import opened Wrappers
  import opened Seqs

  /** One styled span of a block; only its plain text is rendered. */
  datatype Run = Run(plainText: string)

  predicate IsAngle(c: char) {
    c == '<' || c == '>'
  }

  predicate NoAngles(s: string) {
    '<' !in s && '>' !in s
  }

  /** Number of angle brackets in `s`. */
  function AngleCount(s: string): nat {
    if s == [] then 0 else (if IsAngle(s[0]) then 1 else 0) + AngleCount(s[1..])
  }

  // ---------------------------------------------------------------------
  // The source's escaping: two global regex replacements, `<` first.
  // ---------------------------------------------------------------------

  /** `s.replace(/c/g, rep)`: every occurrence of `c` becomes `rep`. */
  function ReplaceAll(s: string, c: char, rep: string): (r: string)
    ensures c !in rep ==> c !in r
    ensures forall d :: d != c && d !in rep ==> (d in r <==> d in s)
  {
    if s == [] then [] else (if s[0] == c then rep else [s[0]]) + ReplaceAll(s[1..], c, rep)
  }

  /** `plain_text.replace(/</g, "&lt;").replace(/>/g, "&gt;")`. */
  function JsEscape(s: string): (r: string)
    ensures NoAngles(r)
  {
    ReplaceAll(ReplaceAll(s, '<', "&lt;"), '>', "&gt;")
  }

  // ---------------------------------------------------------------------
  // The same policy stated per character.
  // ---------------------------------------------------------------------

  function EscapeChar(c: char): string {
    if c == '<' then "&lt;" else if c == '>' then "&gt;" else [c]
  }

  /** Escaping, one character at a time: the result never contains an angle
      bracket and grows by three characters per bracket escaped. */
  function Escape(s: string): (r: string)
    ensures NoAngles(r)
    ensures |r| == |s| + 3 * AngleCount(s)
  {
    if s == [] then [] else EscapeChar(s[0]) + Escape(s[1..])
  }

  /** Undoes the two entities `&lt;` and `&gt;`; every other character is kept. */
  function Unescape(t: string): string {
    if t == [] then []
    else if |t| >= 4 && t[..4] == "&lt;" then "<" + Unescape(t[4..])
    else if |t| >= 4 && t[..4] == "&gt;" then ">" + Unescape(t[4..])
    else [t[0]] + Unescape(t[1..])
  }

  lemma {:induction false} ReplaceAllAppend(a: string, b: string, c: char, rep: string)
    ensures ReplaceAll(a + b, c, rep) == ReplaceAll(a, c, rep) + ReplaceAll(b, c, rep)
  {
    if a == [] {
      AppendEmpty(a, b);
    } else {
      AppendTail(a, b);
      ReplaceAllAppend(a[1..], b, c, rep);
      AppendAssoc(if a[0] == c then rep else [a[0]], ReplaceAll(a[1..], c, rep), ReplaceAll(b, c, rep));
    }
  }

  lemma {:induction false} ReplaceAllAbsent(s: string, c: char, rep: string)
    requires c !in s
    ensures ReplaceAll(s, c, rep) == s
  {
    if s != [] {
      assert s == [s[0]] + s[1..];
      ReplaceAllAbsent(s[1..], c, rep);
    }
  }

  /** The source's two-pass replacement is the per-character escaping: the
      first pass introduces no `>`, so the passes do not interfere. */
  lemma {:induction false} JsEscapeIsEscape(s: string)
    ensures JsEscape(s) == Escape(s)
  {
    if s != [] {
      var head := if s[0] == '<' then "&lt;" else [s[0]];
      calc {
        JsEscape(s);
        ReplaceAll(head + ReplaceAll(s[1..], '<', "&lt;"), '>', "&gt;");
        { ReplaceAllAppend(head, ReplaceAll(s[1..], '<', "&lt;"), '>', "&gt;"); }
        ReplaceAll(head, '>', "&gt;") + JsEscape(s[1..]);
        { JsEscapeIsEscape(s[1..]); }
        ReplaceAll(head, '>', "&gt;") + Escape(s[1..]);
      }
      if s[0] == '>' {
        assert ReplaceAll(head, '>', "&gt;") == "&gt;";
      } else {
        ReplaceAllAbsent(head, '>', "&gt;");
      }
    }
  }

  /** Escaping distributes over concatenation. */
  lemma {:induction false} EscapeAppend(a: string, b: string)
    ensures Escape(a + b) == Escape(a) + Escape(b)
  {
    if a == [] {
      AppendEmpty(a, b);
    } else {
      AppendTail(a, b);
      EscapeAppend(a[1..], b);
      AppendAssoc(EscapeChar(a[0]), Escape(a[1..]), Escape(b));
    }
  }

  lemma {:induction false} AngleCountZero(s: string)
    ensures AngleCount(s) == 0 <==> NoAngles(s)
  {
    if s != [] {
      AngleCountZero(s[1..]);
      if NoAngles(s) {
        assert forall i :: 0 <= i < |s[1..]| ==> s[1..][i] == s[i + 1];
      }
      if NoAngles(s[1..]) && !IsAngle(s[0]) {
        assert forall i :: 1 <= i < |s| ==> s[i] == s[1..][i - 1];
      }
    }
  }

  /** Escaping changes a string exactly when it holds an angle bracket. */
  lemma {:induction false} EscapeFixedPoints(s: string)
    ensures Escape(s) == s <==> NoAngles(s)
  {
    AngleCountZero(s);
    if NoAngles(s) {
      EscapeOfSafe(s);
    }
  }

  lemma {:induction false} EscapeOfSafe(s: string)
    requires NoAngles(s)
    ensures Escape(s) == s
  {
    if s != [] {
      assert !IsAngle(s[0]);
      assert NoAngles(s[1..]) by {
        assert forall i :: 0 <= i < |s[1..]| ==> s[1..][i] == s[i + 1];
      }
      EscapeOfSafe(s[1..]);
      assert s == [s[0]] + s[1..];
    }
  }

  /** Escaping twice is escaping once. */
  lemma EscapeIdempotent(s: string)
    ensures Escape(Escape(s)) == Escape(s)
  {
    EscapeFixedPoints(Escape(s));
  }

  /** Character `i` of the input appears, escaped, right after the escaped
      prefix `s[..i]`, at offset `i + 3 * AngleCount(s[..i])`: every
      character other than an angle bracket survives unchanged and in
      order. */
  lemma EscapeAt(s: string, i: int)
    requires 0 <= i < |s|
    ensures |Escape(s[..i])| == i + 3 * AngleCount(s[..i])
    ensures |Escape(s[..i])| + |EscapeChar(s[i])| <= |Escape(s)|
    ensures Escape(s)[|Escape(s[..i])| .. |Escape(s[..i])| + |EscapeChar(s[i])|] == EscapeChar(s[i])
    ensures !IsAngle(s[i]) ==> Escape(s)[|Escape(s[..i])|] == s[i]
  {
    var pre, mid, post := Escape(s[..i]), EscapeChar(s[i]), Escape(s[i + 1..]);
    EscapeSplit(s, i);
    SliceOfConcat(pre, mid, post);
    assert (pre + (mid + post))[|pre|] == mid[0];
  }

  lemma EscapeSplit(s: string, i: int)
    requires 0 <= i < |s|
    ensures Escape(s) == Escape(s[..i]) + (EscapeChar(s[i]) + Escape(s[i + 1..]))
  {
    SplitAround(s, i);
    EscapeAround(s[..i], s[i], s[i + 1..]);
  }

  lemma EscapeAround(pre: string, c: char, post: string)
    ensures Escape(pre + ([c] + post)) == Escape(pre) + (EscapeChar(c) + Escape(post))
  {
    EscapeAppend(pre, [c] + post);
    EscapeAppend([c], post);
    EscapeOne(c);
  }

  lemma EscapeOne(c: char)
    ensures Escape([c]) == EscapeChar(c)
  {
    assert [c][1..] == [];
  }

  /** Round trip: on text without `&`, unescaping recovers the input. */
  lemma {:induction false} UnescapeEscape(s: string)
    requires '&' !in s
    ensures Unescape(Escape(s)) == s
  {
    if s != [] {
      var tail := Escape(s[1..]);
      assert Escape(s) == EscapeChar(s[0]) + tail;
      UnescapeEscape(s[1..]);
      UnescapeHead(s[0], tail);
      ConsTail(s);
    }
  }

  lemma UnescapeHead(c: char, tail: string)
    requires c != '&'
    ensures Unescape(EscapeChar(c) + tail) == [c] + Unescape(tail)
  {
    var t := EscapeChar(c) + tail;
    if IsAngle(c) {
      SplitConcat(EscapeChar(c), tail);
    } else {
      AppendTail([c], tail);
      assert |t| >= 4 ==> t[..4][0] == c;
    }
  }

  /** Without escaping `&` the policy loses information: the literal text
      `&lt;` and the bracket `<` render identically. */
  lemma EscapeNotInjective()
    ensures "<" != "&lt;" && Escape("<") == Escape("&lt;")
  {
    EscapeOfSafe("&lt;");
    assert Escape("<") == EscapeChar('<') + Escape([]);
  }

  // ---------------------------------------------------------------------
  // richTextToPlain
  // ---------------------------------------------------------------------

  /** The unescaped text of a run list, runs concatenated in order. */
  function ConcatPlain(runs: seq<Run>): string {
    if runs == [] then [] else runs[0].plainText + ConcatPlain(runs[1..])
  }

  /** `runs.map(t => escape(t.plain_text)).join("")`: escaping each run and
      joining is escaping the joined text. */
  function JoinEscaped(runs: seq<Run>): (r: string)
    ensures r == Escape(ConcatPlain(runs))
  {
    if runs == [] then []
    else
      JsEscapeIsEscape(runs[0].plainText);
      EscapeAppend(runs[0].plainText, ConcatPlain(runs[1..]));
      JsEscape(runs[0].plainText) + JoinEscaped(runs[1..])
  }

  /** `richTextToPlain(richTexts = [])`: an absent run list is the empty text. */
  function RichTextToPlain(richTexts: Option<seq<Run>>): (r: string)
    ensures richTexts.None? ==> r == ""
    ensures richTexts.Some? ==> r == Escape(ConcatPlain(richTexts.value))
    ensures NoAngles(r)
  {
    match richTexts
    case None => JoinEscaped([])
    case Some(runs) => JoinEscaped(runs)
  }
}
