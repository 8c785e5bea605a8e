/**
 * `mdToHtml` of public/app.js: a chain of global regular-expression replacements. Each
 * `replace` call is one function here; together they escape the HTML special characters,
 * rewrite `**x**`, `` `x` `` and `# x` lines, and turn newlines into `<br>`.
 */
module Markdown {
  import opened Wrappers
  import opened Text
  import opened Framing

  /** Every occurrence of the character `c` replaced by `r`. */
  function ReplaceChar(s: string, c: char, r: string): (t: string)
    ensures c !in r ==> c !in t
    ensures c !in s ==> t == s
    ensures forall x :: x in t ==> (x in s && x != c) || x in r
  {
    if s == [] then [] else (if s[0] == c then r else [s[0]]) + ReplaceChar(s[1..], c, r)
  }

  lemma {:induction false} ReplaceCharAppend(a: string, b: string, c: char, r: string)
    ensures ReplaceChar(a + b, c, r) == ReplaceChar(a, c, r) + ReplaceChar(b, c, r)
  {
    if a != [] {
      assert (a + b)[0] == a[0] && (a + b)[1..] == a[1..] + b;
      ReplaceCharAppend(a[1..], b, c, r);
      Reassoc(if a[0] == c then r else [a[0]], ReplaceChar(a[1..], c, r), ReplaceChar(b, c, r));
    } else {
      assert a + b == b;
    }
  }

  /** The first three replacements, `&` first so that the entities written for `<` and `>` are not escaped again. */
  function Escape(s: string): string {
    ReplaceChar(ReplaceChar(ReplaceChar(s, '&', "&amp;"), '<', "&lt;"), '>', "&gt;")
  }

  /** The HTML escape of one character. */
  function EscapeChar(c: char): string {
    if c == '&' then "&amp;" else if c == '<' then "&lt;" else if c == '>' then "&gt;" else [c]
  }

  /** The HTML escape character by character: the reference the chain of replacements must match. */
  function EscapeRef(s: string): string {
    if s == [] then [] else EscapeChar(s[0]) + EscapeRef(s[1..])
  }

  lemma EscapeOne(c: char)
    ensures Escape([c]) == EscapeChar(c)
  {
    assert [c][1..] == [];
    if c == '&' {
      assert '<' !in "&amp;" && '>' !in "&amp;";
    } else if c == '<' {
      assert '>' !in "&lt;";
    }
  }

  lemma EscapeAppend(a: string, b: string)
    ensures Escape(a + b) == Escape(a) + Escape(b)
  {
    ReplaceCharAppend(a, b, '&', "&amp;");
    var a1, b1 := ReplaceChar(a, '&', "&amp;"), ReplaceChar(b, '&', "&amp;");
    ReplaceCharAppend(a1, b1, '<', "&lt;");
    ReplaceCharAppend(ReplaceChar(a1, '<', "&lt;"), ReplaceChar(b1, '<', "&lt;"), '>', "&gt;");
  }

  /** Escaping `&` first makes the chain the exact per-character escape: nothing is escaped twice. */
  lemma {:induction false} EscapeIsPerChar(s: string)
    ensures Escape(s) == EscapeRef(s)
  {
    if s != [] {
      assert s == [s[0]] + s[1..];
      EscapeAppend([s[0]], s[1..]);
      EscapeOne(s[0]);
      EscapeIsPerChar(s[1..]);
    } else {
      assert '&' !in s;
    }
  }

  /** The escape leaves no angle bracket. */
  lemma EscapeNoAngle(s: string)
    ensures '<' !in Escape(s) && '>' !in Escape(s)
  {
    assert '<' !in "&gt;";
  }

  /** A character that is neither in the text nor in an entity is not in its escape. */
  predicate InEntity(c: char) {
    c == '&' || c == 'a' || c == 'm' || c == 'p' || c == ';' || c == 'l' || c == 't' || c == 'g'
  }

  lemma EscapeAbsent(s: string, c: char)
    requires c !in s && !InEntity(c)
    ensures c !in Escape(s)
  {
    assert c !in "&amp;" && c !in "&lt;" && c !in "&gt;";
    var a := ReplaceChar(s, '&', "&amp;");
    assert c !in a;
    var b := ReplaceChar(a, '<', "&lt;");
    assert c !in b;
  }

  /** Reading the entities back. */
  function Unescape(t: string): string
    decreases |t|
  {
    if t == [] then []
    else if StartsWith(t, "&amp;") then "&" + Unescape(t[5..])
    else if StartsWith(t, "&lt;") then "<" + Unescape(t[4..])
    else if StartsWith(t, "&gt;") then ">" + Unescape(t[4..])
    else [t[0]] + Unescape(t[1..])
  }

  lemma UnescapeAmp(rest: string)
    ensures Unescape("&amp;" + rest) == "&" + Unescape(rest)
  {
    var t := "&amp;" + rest;
    assert t[..5] == "&amp;" && t[5..] == rest;
  }

  lemma UnescapeLt(rest: string)
    ensures Unescape("&lt;" + rest) == "<" + Unescape(rest)
  {
    var t := "&lt;" + rest;
    assert t[1] == 'l' && !StartsWith(t, "&amp;");
    assert t[..4] == "&lt;" && t[4..] == rest;
  }

  lemma UnescapeGt(rest: string)
    ensures Unescape("&gt;" + rest) == ">" + Unescape(rest)
  {
    var t := "&gt;" + rest;
    assert t[1] == 'g' && !StartsWith(t, "&amp;") && !StartsWith(t, "&lt;");
    assert t[..4] == "&gt;" && t[4..] == rest;
  }

  lemma UnescapePlain(c: char, rest: string)
    requires c != '&'
    ensures Unescape([c] + rest) == [c] + Unescape(rest)
  {
    var t := [c] + rest;
    assert t[0] == c && t[1..] == rest;
  }

  lemma UnescapeOne(c: char, rest: string)
    ensures Unescape(EscapeChar(c) + rest) == [c] + Unescape(rest)
  {
    if c == '&' {
      UnescapeAmp(rest);
    } else if c == '<' {
      UnescapeLt(rest);
    } else if c == '>' {
      UnescapeGt(rest);
    } else {
      UnescapePlain(c, rest);
    }
  }

  /** The escape loses nothing: the entities read back give the original text. */
  lemma {:induction false} UnescapeEscape(s: string)
    ensures Unescape(Escape(s)) == s
  {
    EscapeIsPerChar(s);
    UnescapeRef(s);
  }

  lemma {:induction false} UnescapeRef(s: string)
    ensures Unescape(EscapeRef(s)) == s
  {
    if s != [] {
      UnescapeOne(s[0], EscapeRef(s[1..]));
      UnescapeRef(s[1..]);
      assert [s[0]] + s[1..] == s;
    }
  }

  /** No character of `s` is a line terminator, so `.` matches each of them. */
  predicate LineFree(s: string) {
    forall i :: 0 <= i < |s| ==> !IsLineTerminator(s[i])
  }

  /** `(.+?)\*\*` matches at the start of `t` with the `n` characters before the closing `**` as its content. */
  predicate ClosesAt(t: string, n: nat) {
    1 <= n && n + 2 <= |t| && t[n..n + 2] == "**" && LineFree(t[..n])
  }

  /** The lazy `(.+?)\*\*`: the shortest content, of at least `k` characters, that a closing `**` follows. */
  function LazyClose(t: string, k: nat): (r: Option<nat>)
    requires 1 <= k <= |t| + 1 && LineFree(t[..k - 1])
    ensures r.Some? ==> ClosesAt(t, r.value) && k <= r.value
    ensures r.Some? ==> forall n :: k <= n < r.value ==> !ClosesAt(t, n)
    ensures r.None? ==> forall n :: k <= n ==> !ClosesAt(t, n)
    decreases |t| - k
  {
    if k + 2 > |t| then None
    else if IsLineTerminator(t[k - 1]) then
      assert forall n :: k <= n <= |t| ==> t[..n][k - 1] == t[k - 1];
      None
    else
      assert LineFree(t[..k]) by {
        assert forall i :: 0 <= i < k - 1 ==> t[..k][i] == t[..k - 1][i];
      }
      if t[k..k + 2] == "**" then Some(k) else LazyClose(t, k + 1)
  }

  /** The bold rewrite: `**`, the shortest non-empty single-line content, `**`, becomes a `strong` element; the scan tries each position left to right and resumes after a match. */
  function Strong(s: string): (r: string)
    ensures '*' !in s ==> r == s
    decreases |s|
  {
    if |s| < 2 then s
    else if s[..2] == "**" && LazyClose(s[2..], 1).Some? then
      assert s[0] in s;
      var n := LazyClose(s[2..], 1).value;
      "<strong>" + s[2..2 + n] + "</strong>" + Strong(s[4 + n..])
    else
      assert '*' !in s ==> '*' !in s[1..];
      [s[0]] + Strong(s[1..])
  }

  /** The number of leading characters of `t` that are not backticks. */
  function BacktickRun(t: string): (n: nat)
    ensures n <= |t| && (forall i :: 0 <= i < n ==> t[i] != '`') && (n < |t| ==> t[n] == '`')
  {
    if t == [] || t[0] == '`' then 0 else 1 + BacktickRun(t[1..])
  }

  /** The code rewrite: a backtick, at least one other character, the next backtick, becomes a `code` element. */
  function Code(s: string): (r: string)
    ensures '`' !in s ==> r == s
  {
    if s == [] then []
    else if s[0] == '`' && 1 <= BacktickRun(s[1..]) < |s| - 1 then
      var n := BacktickRun(s[1..]);
      "<code>" + s[1..1 + n] + "</code>" + Code(s[2 + n..])
    else
      assert '`' !in s ==> '`' !in s[1..];
      [s[0]] + Code(s[1..])
  }

  /** The number of leading characters of `t` that are not line terminators: what the greedy `.+` takes. */
  function LineRun(t: string): (n: nat)
    ensures n <= |t| && LineFree(t[..n]) && (n < |t| ==> IsLineTerminator(t[n]))
  {
    if t == [] || IsLineTerminator(t[0]) then 0
    else
      var n := 1 + LineRun(t[1..]);
      assert forall i :: 1 <= i < n ==> t[..n][i] == t[1..][..n - 1][i - 1];
      n
  }

  /**
   * The heading rewrite: at the start of a line, `# ` and the rest of that line, if it is not
   * empty, becomes an `h4` element; `atLineStart` says whether `s` begins a line of the text.
   */
  function Headings(s: string, atLineStart: bool): (r: string)
    ensures '#' !in s ==> r == s
  {
    if s == [] then []
    else if atLineStart && StartsWith(s, "# ") && LineRun(s[2..]) >= 1 then
      assert s[0] in s;
      var n := LineRun(s[2..]);
      "<h4>" + s[2..2 + n] + "</h4>" + Headings(s[2 + n..], false)
    else
      assert '#' !in s ==> '#' !in s[1..];
      [s[0]] + Headings(s[1..], IsLineTerminator(s[0]))
  }

  /** Every newline becomes a `br` element. */
  function Newlines(s: string): string {
    ReplaceChar(s, '\n', "<br>")
  }

  /** `mdToHtml(text)`. */
  function MdToHtml(text: string): string {
    Newlines(Headings(Code(Strong(Escape(text))), true))
  }

  /** The output of `mdToHtml` never spans lines. */
  lemma MdToHtmlSingleLine(text: string)
    ensures '\n' !in MdToHtml(text)
  {
  }

  /** Text without markup characters or newlines comes out exactly HTML-escaped, with no angle bracket left. */
  lemma MdToHtmlPlain(text: string)
    requires '*' !in text && '`' !in text && '#' !in text && '\n' !in text
    ensures MdToHtml(text) == EscapeRef(text)
    ensures '<' !in MdToHtml(text) && '>' !in MdToHtml(text)
  {
    EscapeAbsent(text, '*');
    EscapeAbsent(text, '`');
    EscapeAbsent(text, '#');
    EscapeAbsent(text, '\n');
    var e := Escape(text);
    assert Strong(e) == e;
    assert Code(e) == e;
    assert Headings(e, true) == e;
    assert Newlines(e) == e;
    assert MdToHtml(text) == e;
    EscapeIsPerChar(text);
    EscapeNoAngle(text);
  }

  /** `mdToHtml('')` is empty, so an absent `content` adds nothing visible. */
  lemma MdToHtmlEmpty()
    ensures MdToHtml("") == ""
  {
  }

  lemma JoinCons(c: char, p: seq<string>, sep: string)
    requires |p| >= 1
    ensures Join(Cons(c, p), sep) == [c] + Join(p, sep)
  {
    var q := Cons(c, p);
    if |p| > 1 {
      assert q[1..] == p[1..];
      Reassoc([c], p[0], sep + Join(p[1..], sep));
      Reassoc(p[0], sep, Join(p[1..], sep));
      Reassoc([c] + p[0], sep, Join(p[1..], sep));
    }
  }

  /** Replacing a character is joining the pieces that splitting on it gives. */
  lemma {:induction false} ReplaceCharIsSplitJoin(s: string, c: char, r: string)
    ensures ReplaceChar(s, c, r) == Join(Split(s, [c]), r)
    decreases |s|
  {
    if s != [] {
      ReplaceCharIsSplitJoin(s[1..], c, r);
      var p := Split(s[1..], [c]);
      if s[0] == c {
        assert s[..1] == [c];
        assert Split(s, [c]) == [""] + p;
        assert ([""] + p)[1..] == p;
      } else {
        assert s[..1] != [c];
        JoinCons(s[0], p, r);
      }
    }
  }

  /** The last step of `mdToHtml` puts `<br>` between the lines of its input. */
  lemma NewlinesAreBreaks(s: string)
    ensures Newlines(s) == Join(Split(s, "\n"), "<br>")
  {
    ReplaceCharIsSplitJoin(s, '\n', "<br>");
  }

  /** `**x**` around non-empty single-line text without `*` becomes `<strong>x</strong>`. */
  lemma StrongOne(x: string)
    requires x != [] && LineFree(x) && '*' !in x
    ensures Strong("**" + x + "**") == "<strong>" + x + "</strong>"
  {
    var s := "**" + x + "**";
    var t := s[2..];
    assert t == x + "**";
    assert ClosesAt(t, |x|) by {
      assert t[..|x|] == x;
    }
    var r := LazyClose(t, 1);
    forall n | 1 <= n < |x| ensures !ClosesAt(t, n) {
      assert t[n] == x[n];
    }
    assert s[..2] == "**";
    assert s[2..2 + |x|] == x && s[4 + |x|..] == [];
  }

  lemma {:induction false} BacktickRunAll(x: string, y: string)
    requires '`' !in x && StartsWith(y, "`")
    ensures BacktickRun(x + y) == |x|
  {
    if x != [] {
      assert (x + y)[1..] == x[1..] + y;
      assert x[0] in x;
      BacktickRunAll(x[1..], y);
    } else {
      assert x + y == y;
    }
  }

  lemma {:induction false} LineRunAll(x: string, y: string)
    requires LineFree(x) && (y == [] || IsLineTerminator(y[0]))
    ensures LineRun(x + y) == |x|
  {
    if x != [] {
      assert (x + y)[1..] == x[1..] + y;
      assert (x + y)[0] == x[0];
      assert LineFree(x[1..]) by {
        assert forall i :: 0 <= i < |x| - 1 ==> x[1..][i] == x[i + 1];
      }
      LineRunAll(x[1..], y);
    } else {
      assert x + y == y;
    }
  }

  /** `` `x` `` around non-empty text without backticks becomes `<code>x</code>`. */
  lemma CodeOne(x: string)
    requires x != [] && '`' !in x
    ensures Code("`" + x + "`") == "<code>" + x + "</code>"
  {
    var s := "`" + x + "`";
    assert s[1..] == x + "`";
    BacktickRunAll(x, "`");
    var n := BacktickRun(s[1..]);
    assert s[1..1 + n] == x && s[2 + n..] == [];
  }

  /** A line `# x` with non-empty single-line `x` becomes `<h4>x</h4>`. */
  lemma HeadingOne(x: string)
    requires x != [] && LineFree(x)
    ensures Headings("# " + x, true) == "<h4>" + x + "</h4>"
  {
    var s := "# " + x;
    assert s[2..] == x;
    LineRunAll(x, []);
    var n := LineRun(x);
    assert x + [] == x;
    assert s[..2] == "# " && s[2..2 + n] == x && s[2 + n..] == [];
  }
}
