/** The chain of `replace` calls in scripts/send-to-slack.js that turns the generated Markdown
    report into Slack's mrkdwn dialect. Each regular expression of the chain is written out as a
    recursive function that follows JavaScript's matching rules for that one pattern: leftmost
    match first, lazy groups as short as possible, a global search resuming after each match,
    `.` never matching a line terminator, and `^`/`$` under the `m` flag matching next to one. */
module SlackFormat {
  import opened Strings

  /** JavaScript's LineTerminator characters. */
  predicate IsLineTerminator(c: char)
  {
    c == '\n' || c == '\r' || c == '\U{2028}' || c == '\U{2029}'
  }

  /** No line terminator in `s`: the text a `.*` can cover. */
  predicate OnOneLine(s: string)
  {
    forall k :: 0 <= k < |s| ==> !IsLineTerminator(s[k])
  }

  /** `\w`: ASCII letters, digits and the underscore. */
  predicate IsWordChar(c: char)
  {
    'a' <= c <= 'z' || 'A' <= c <= 'Z' || '0' <= c <= '9' || c == '_'
  }

  /** What `String.prototype.trim` strips: WhiteSpace (tab, vertical tab, form feed, space,
      no-break space, byte-order mark and every other space separator) and LineTerminator. */
  predicate IsJsSpace(c: char)
  {
    || c == '\t' || c == '\U{000B}' || c == '\U{000C}' || c == ' ' || c == '\U{00A0}' || c == '\U{FEFF}'
    || c == '\U{1680}' || '\U{2000}' <= c <= '\U{200A}' || c == '\U{202F}' || c == '\U{205F}' || c == '\U{3000}'
    || IsLineTerminator(c)
  }

  /** `pat` occurs in `s` at offset `j`. */
  predicate At(s: string, j: int, pat: string)
  {
    0 <= j <= |s| && pat <= s[j..]
  }

  // ---------------------------------------------------------------------------------------
  // Unwrapping an enclosing code fence: /^```[\w]*\n([\s\S]*?)\n```$/, no flags

  const Fence: string := "```"

  /** Length of the run of word characters at the start of `s`. */
  function WordRun(s: string): (n: nat)
    ensures n <= |s|
    ensures forall k :: 0 <= k < n ==> IsWordChar(s[k])
    ensures n < |s| ==> !IsWordChar(s[n])
  {
    if s != [] && IsWordChar(s[0]) then 1 + WordRun(s[1..]) else 0
  }

  /** `s` is exactly one fence with info string `info` around `body`: without the `m` flag
      `^` and `$` only match at the two ends of the whole text. */
  predicate Fenced(s: string, info: string, body: string)
  {
    && (forall k :: 0 <= k < |info| ==> IsWordChar(info[k]))
    && s == Fence + info + "\n" + body + "\n" + Fence
  }

  /** The captured group when the pattern matches. `[\w]*` can only stop at the first
      non-word character, which must be the newline; the closing fence is pinned to the end. */
  function FenceBody(s: string): Option<string>
  {
    if |s| < 3 || s[..3] != Fence then None
    else
      var n := 3 + WordRun(s[3..]);
      if n + 5 <= |s| && s[n] == '\n' && s[|s| - 4..] == "\n" + Fence then Some(s[n + 1..|s| - 4])
      else None
  }

  function Unwrap(report: string): string
  {
    match FenceBody(report)
    case Some(body) => body
    case None => report
  }

  /** A fenced report is replaced by the text inside the fence. */
  lemma UnwrapFenced(s: string, info: string, body: string)
    requires Fenced(s, info, body)
    ensures Unwrap(s) == body
  {
    assert s[..3] == Fence;
    assert s[3..] == info + "\n" + body + "\n" + Fence;
    assert s[3..][|info|] == '\n';
    var n := 3 + WordRun(s[3..]);
    assert n == 3 + |info|;
    assert s[|s| - 4..] == "\n" + Fence;
    assert s[n + 1..|s| - 4] == body;
  }

  /** Any other report is left as it is. */
  lemma UnwrapOnlyFenced(s: string)
    ensures Unwrap(s) != s ==> exists info :: Fenced(s, info, Unwrap(s))
  {
    if FenceBody(s).Some? {
      var n := 3 + WordRun(s[3..]);
      var info, body := s[3..n], s[n + 1..|s| - 4];
      assert s == Fence + info + "\n" + body + "\n" + Fence;
      assert Fenced(s, info, body);
    }
  }

  /** `$` without the `m` flag does not match before a final newline, so a newline after the
      closing fence keeps the fence in the report. */
  lemma TrailingNewlineKeepsFence(info: string, body: string)
    ensures Unwrap(Fence + info + "\n" + body + "\n" + Fence + "\n") == Fence + info + "\n" + body + "\n" + Fence + "\n"
  {
    var s := Fence + info + "\n" + body + "\n" + Fence + "\n";
    assert s[|s| - 1] == '\n';
  }

  // ---------------------------------------------------------------------------------------
  // Headings: /^# (.*?)$/gm, /^## (.*?)$/gm, /^### (.*?)$/gm

  /** Offset of the first line terminator in `s`, or |s| when there is none. */
  function LineEnd(s: string): (k: nat)
    ensures k <= |s|
    ensures forall j :: 0 <= j < k ==> !IsLineTerminator(s[j])
    ensures k < |s| ==> IsLineTerminator(s[k])
  {
    if s == [] || IsLineTerminator(s[0]) then 0 else 1 + LineEnd(s[1..])
  }

  /** `LineEnd` is the only offset with the two properties in its contract. */
  lemma {:induction false} LineEndIs(s: string, k: nat)
    requires k <= |s|
    requires forall j :: 0 <= j < k ==> !IsLineTerminator(s[j])
    requires k < |s| ==> IsLineTerminator(s[k])
    ensures LineEnd(s) == k
  {
    if k > 0 {
      LineEndIs(s[1..], k - 1);
    }
  }

  /** The replacement `open + $1 + close` applied to one line that starts with `marker`. */
  function RewriteLine(line: string, marker: string, open: string, close: string): string
  {
    if marker <= line then open + line[|marker|..] + close else line
  }

  /** `s.replace(/^marker(.*?)$/gm, open + '$1' + close)`. The lazy group grows until `$`
      holds, and `.` cannot pass a line terminator, so a match is always one whole line that
      starts with `marker`; each line is rewritten on its own and the terminators are kept. */
  function RewriteHeadings(s: string, marker: string, open: string, close: string): string
    decreases |s|
  {
    var k := LineEnd(s);
    if k == |s| then RewriteLine(s, marker, open, close)
    else RewriteLine(s[..k], marker, open, close) + [s[k]] + RewriteHeadings(s[k + 1..], marker, open, close)
  }

  /** `# T` becomes bold followed by an empty line. */
  function H1(s: string): string { RewriteHeadings(s, "# ", "*", "*\n") }

  /** `## T` becomes bold preceded by an empty line. */
  function H2(s: string): string { RewriteHeadings(s, "## ", "\n*", "*") }

  /** `### T` becomes italic. */
  function H3(s: string): string { RewriteHeadings(s, "### ", "_", "_") }

  /** The heading rewrites work line by line: a line is rewritten on its own, its terminator is
      kept, and the text after it is rewritten as if it stood alone. */
  lemma RewriteHeadingsLine(line: string, t: char, b: string, marker: string, open: string, close: string)
    requires IsLineTerminator(t) && OnOneLine(line)
    ensures RewriteHeadings(line + [t] + b, marker, open, close)
         == RewriteLine(line, marker, open, close) + [t] + RewriteHeadings(b, marker, open, close)
  {
    var s := line + [t] + b;
    forall j | 0 <= j < |line| ensures !IsLineTerminator(s[j]) {
      assert s[j] == line[j];
    }
    LineEndIs(s, |line|);
    assert s[|line| + 1..] == b && s[..|line|] == line && s[|line|] == t;
  }

  /** On a single line the three rewrites give the Slack forms, and leave every line that does
      not start with their marker alone. */
  lemma HeadingLines(line: string)
    requires OnOneLine(line)
    ensures "# " <= line ==> H1(line) == "*" + line[2..] + "*\n"
    ensures "## " <= line ==> H2(line) == "\n*" + line[3..] + "*"
    ensures "### " <= line ==> H3(line) == "_" + line[4..] + "_"
    ensures !("# " <= line) ==> H1(line) == line
    ensures !("## " <= line) ==> H2(line) == line
    ensures !("### " <= line) ==> H3(line) == line
  {
    assert LineEnd(line) == |line|;
  }

  // ---------------------------------------------------------------------------------------
  // Searching within one line, as a lazy `(.*?)` followed by a literal does

  /** First offset `j >= p` where `pat` occurs with no line terminator in `s[p..j]`. */
  function FindOnLine(s: string, p: nat, pat: string): (r: Option<nat>)
    requires p <= |s|
    ensures r.Some? ==> p <= r.value && At(s, r.value, pat) && OnOneLine(s[p..r.value])
    ensures r.Some? ==> forall j :: p <= j < r.value ==> !At(s, j, pat)
    ensures r.None? ==> forall j :: p <= j <= |s| && OnOneLine(s[p..j]) ==> !At(s, j, pat)
    decreases |s| - p
  {
    if At(s, p, pat) then Some(p)
    else if p == |s| || IsLineTerminator(s[p]) then
      assert forall j :: p < j <= |s| ==> s[p..j][0] == s[p];
      None
    else
      var r := FindOnLine(s, p + 1, pat);
      assert forall j :: p < j <= |s| ==> s[p..j] == [s[p]] + s[p + 1..j];
      r
  }

  /** The contract of `FindOnLine` pins its answer down. */
  lemma FindOnLineIs(s: string, p: nat, pat: string, k: nat)
    requires p <= k <= |s| && At(s, k, pat) && OnOneLine(s[p..k])
    requires forall j :: p <= j < k ==> !At(s, j, pat)
    ensures FindOnLine(s, p, pat) == Some(k)
  {
  }

  /** A search that starts before a line terminator gives the same answer whatever follows the
      terminator, provided the pattern itself holds no terminator. */
  lemma {:induction false} FindOnLineStops(a: string, t: char, b: string, p: nat, pat: string)
    requires IsLineTerminator(t) && OnOneLine(pat) && p <= |a|
    ensures FindOnLine(a + [t] + b, p, pat) == FindOnLine(a, p, pat)
    decreases |a| - p
  {
    var s := a + [t] + b;
    if p + |pat| > |a| && p + |pat| <= |s| {
      assert s[p..][|a| - p] == t;
      assert !IsLineTerminator(pat[|a| - p]);
    }
    if At(a, p, pat) {
      assert pat <= s[p..] by { assert s[p..p + |pat|] == a[p..p + |pat|]; }
    }
    if p < |a| {
      assert s[p] == a[p];
      if !At(a, p, pat) && !IsLineTerminator(a[p]) {
        FindOnLineStops(a, t, b, p + 1, pat);
      }
    }
  }

  // ---------------------------------------------------------------------------------------
  // Bold: /\*\*(.*?)\*\*/g → *$1*

  /** Offset of the closing `**` of a bold match that opens at the start of `s`. */
  function BoldAt(s: string): (r: Option<nat>)
    ensures r.Some? ==> 2 <= r.value <= |s| - 2
  {
    if "**" <= s then FindOnLine(s, 2, "**") else None
  }

  /** What one step of the global replacement emits at the start of `s`, and how much of `s`
      it consumes: a whole match, or the first character when no match starts there. */
  function BoldPiece(s: string): (p: (string, nat))
    requires s != []
    ensures 1 <= p.1 <= |s|
  {
    match BoldAt(s)
    case Some(j) => ("*" + s[2..j] + "*", j + 2)
    case None => ([s[0]], 1)
  }

  function Bold(s: string): string
    decreases |s|
  {
    if s == [] then [] else var p := BoldPiece(s); p.0 + Bold(s[p.1..])
  }

  /** `**x**` becomes `*x*` when `x` is the shortest candidate: it stays on one line and each
      asterisk in it is followed by a character other than an asterisk. */
  lemma BoldPair(x: string, rest: string)
    requires OnOneLine(x)
    requires forall k :: 0 <= k < |x| && x[k] == '*' ==> k + 1 < |x| && x[k + 1] != '*'
    ensures Bold("**" + x + "**" + rest) == "*" + x + "*" + Bold(rest)
  {
    var s := "**" + x + "**" + rest;
    var e := 2 + |x|;
    assert s[2..e] == x;
    assert At(s, e, "**");
    forall v | 2 <= v < e
      ensures !At(s, v, "**")
    {
      assert s[v] == x[v - 2];
      if v + 1 < e { assert s[v + 1] == x[v - 1]; }
    }
    var r := FindOnLine(s, 2, "**");
    assert r == Some(e);
    assert s[e + 2..] == rest;
  }

  /** Whether a bold match starts at offset 0, and where it closes, does not depend on what
      follows the line. */
  lemma BoldAtStops(a: string, t: char, b: string)
    requires IsLineTerminator(t) && a != []
    ensures BoldAt(a + [t] + b) == BoldAt(a)
  {
    var s := a + [t] + b;
    if |a| == 1 {
      assert s[1] == t;
    } else {
      assert s[..2] == a[..2];
      FindOnLineStops(a, t, b, 2, "**");
    }
  }

  /** So the first step is the same with or without what follows the line. */
  lemma BoldPieceStops(a: string, t: char, b: string)
    requires IsLineTerminator(t) && a != []
    ensures BoldPiece(a + [t] + b) == BoldPiece(a)
  {
    var s := a + [t] + b;
    BoldAtStops(a, t, b);
    assert s[0] == a[0];
    if BoldAt(a).Some? {
      var j := BoldAt(a).value;
      assert s[2..j] == a[2..j];
    }
  }

  /** A line terminator is copied and the rewrite goes on after it. */
  lemma BoldAfterTerminator(t: char, b: string)
    requires IsLineTerminator(t)
    ensures Bold([t] + b) == [t] + Bold(b)
  {
    var s := [t] + b;
    assert s[0] == t && s[1..] == b;
    assert !("**" <= s);
    assert BoldPiece(s) == ([t], 1);
  }

  /** Bold never pairs asterisks across a line terminator. */
  lemma {:induction false} BoldPerLine(a: string, t: char, b: string)
    requires IsLineTerminator(t)
    ensures Bold(a + [t] + b) == Bold(a) + [t] + Bold(b)
    decreases |a|
  {
    var s := a + [t] + b;
    if a == [] {
      assert s == [t] + b;
      BoldAfterTerminator(t, b);
    } else {
      var p := BoldPiece(a);
      var rest := a[p.1..];
      calc {
        Bold(s);
        { BoldPieceStops(a, t, b); }
        p.0 + Bold(s[p.1..]);
        { assert s[p.1..] == rest + [t] + b; }
        p.0 + Bold(rest + [t] + b);
        { BoldPerLine(rest, t, b); }
        p.0 + (Bold(rest) + [t] + Bold(b));
        (p.0 + Bold(rest)) + [t] + Bold(b);
        Bold(a) + [t] + Bold(b);
      }
    }
  }

  // ---------------------------------------------------------------------------------------
  // Links: /\[(.*?)\]\((.*?)\)/g → <$2|$1>

  /** The offsets of `](` and of `)` for a link that opens at the start of `s`. The first
      group takes the first `](` on the line; if no `)` follows it on the line, no later `](`
      could have one either, so backtracking never finds another match. */
  function LinkAt(s: string): (r: Option<(nat, nat)>)
    ensures r.Some? ==> 1 <= r.value.0 && r.value.0 + 2 <= r.value.1 < |s|
  {
    if s == [] || s[0] != '[' then None
    else match FindOnLine(s, 1, "](")
      case None => None
      case Some(k) =>
        match FindOnLine(s, k + 2, ")")
        case None => None
        case Some(m) => Some((k, m))
  }

  /** What one step of the global replacement emits at the start of `s`, and how much of `s`
      it consumes. */
  function LinkPiece(s: string): (p: (string, nat))
    requires s != []
    ensures 1 <= p.1 <= |s|
  {
    match LinkAt(s)
    case Some((k, m)) => ("<" + s[k + 2..m] + "|" + s[1..k] + ">", m + 1)
    case None => ([s[0]], 1)
  }

  function Links(s: string): string
    decreases |s|
  {
    if s == [] then [] else var p := LinkPiece(s); p.0 + Links(s[p.1..])
  }

  /** `[text](url)` becomes `<url|text>` when both parts stay on one line, `text` holds no
      `](` and `url` no `)`. */
  lemma LinkPair(text: string, url: string, rest: string)
    requires OnOneLine(text) && OnOneLine(url)
    requires forall k :: 0 <= k < |text| ==> !At(text, k, "](")
    requires ')' !in url
    ensures Links("[" + text + "](" + url + ")" + rest) == "<" + url + "|" + text + ">" + Links(rest)
  {
    var before, after := "[" + text + "](", ")" + rest;
    var s := before + url + after;
    var k, m := 1 + |text|, 3 + |text| + |url|;
    assert s == "[" + text + "](" + url + ")" + rest;
    assert s == "[" + text + ("](" + url + after);
    LinkTextEnds(text, "](" + url + after);
    LinkUrlEnds(url, after, before);
    assert s[1..k] == text && s[k + 2..m] == url && s[m + 1..] == rest;
    assert LinkAt(s) == Some((k, m));
  }

  /** The first `](` after `[text` is the one right after `text`. */
  lemma LinkTextEnds(text: string, after: string)
    requires OnOneLine(text) && "](" <= after
    requires forall k :: 0 <= k < |text| ==> !At(text, k, "](")
    ensures FindOnLine("[" + text + after, 1, "](") == Some(1 + |text|)
  {
    var s := "[" + text + after;
    var k := 1 + |text|;
    assert s[1..k] == text;
    assert s[k..] == after;
    forall v | 1 <= v < k
      ensures !At(s, v, "](")
    {
      if v + 1 < k {
        assert s[v..v + 2] == text[v - 1..v + 1];
        assert !At(text, v - 1, "](");
      } else {
        assert s[v + 1] == after[0];
      }
    }
    assert At(s, k, "](") by { assert s[k..k + 2] == after[..2]; }
    FindOnLineIs(s, 1, "](", k);
  }

  /** The first `)` after the `](` is the one right after `url`. */
  lemma LinkUrlEnds(url: string, after: string, before: string)
    requires OnOneLine(url) && ')' !in url && ")" <= after
    ensures FindOnLine(before + url + after, |before|, ")") == Some(|before| + |url|)
  {
    var s := before + url + after;
    var p := |before|;
    assert s[p..p + |url|] == url;
    assert s[p + |url|..] == after;
    forall v | p <= v < p + |url|
      ensures !At(s, v, ")")
    {
      assert s[v] == url[v - p];
    }
    assert At(s, p + |url|, ")") by { assert s[p + |url|] == after[0]; }
    FindOnLineIs(s, p, ")", p + |url|);
  }

  /** Whether a link starts at offset 0, and where its parts end, does not depend on what
      follows the line. */
  lemma LinkAtStops(a: string, t: char, b: string)
    requires IsLineTerminator(t) && a != []
    ensures LinkAt(a + [t] + b) == LinkAt(a)
  {
    var s := a + [t] + b;
    assert s[0] == a[0];
    if a[0] == '[' {
      FindOnLineStops(a, t, b, 1, "](");
      match FindOnLine(a, 1, "](")
      case None =>
      case Some(k) =>
        FindOnLineStops(a, t, b, k + 2, ")");
    }
  }

  /** So the first step is the same with or without what follows the line. */
  lemma LinkPieceStops(a: string, t: char, b: string)
    requires IsLineTerminator(t) && a != []
    ensures LinkPiece(a + [t] + b) == LinkPiece(a)
  {
    var s := a + [t] + b;
    LinkAtStops(a, t, b);
    assert s[0] == a[0];
    if LinkAt(a).Some? {
      var (k, m) := LinkAt(a).value;
      assert s[k + 2..m] == a[k + 2..m] && s[1..k] == a[1..k];
    }
  }

  /** A line terminator is copied and the rewrite goes on after it. */
  lemma LinksAfterTerminator(t: char, b: string)
    requires IsLineTerminator(t)
    ensures Links([t] + b) == [t] + Links(b)
  {
    var s := [t] + b;
    assert s[0] == t && s[1..] == b;
    assert LinkPiece(s) == ([t], 1);
  }

  /** Links never span a line terminator. */
  lemma {:induction false} LinksPerLine(a: string, t: char, b: string)
    requires IsLineTerminator(t)
    ensures Links(a + [t] + b) == Links(a) + [t] + Links(b)
    decreases |a|
  {
    var s := a + [t] + b;
    if a == [] {
      assert s == [t] + b;
      LinksAfterTerminator(t, b);
    } else {
      var p := LinkPiece(a);
      var rest := a[p.1..];
      calc {
        Links(s);
        { LinkPieceStops(a, t, b); }
        p.0 + Links(s[p.1..]);
        { assert s[p.1..] == rest + [t] + b; }
        p.0 + Links(rest + [t] + b);
        { LinksPerLine(rest, t, b); }
        p.0 + (Links(rest) + [t] + Links(b));
        (p.0 + Links(rest)) + [t] + Links(b);
        Links(a) + [t] + Links(b);
      }
    }
  }

  // ---------------------------------------------------------------------------------------
  // Blank lines: /\n{3,}/g → \n\n, then trim()

  /** Length of the run of '\n' at the start of `s`. */
  function NewlineRun(s: string): (n: nat)
    ensures n <= |s|
    ensures forall k :: 0 <= k < n ==> s[k] == '\n'
    ensures n < |s| ==> s[n] != '\n'
  {
    if s != [] && s[0] == '\n' then 1 + NewlineRun(s[1..]) else 0
  }

  predicate NoTripleNewline(s: string)
  {
    forall k :: 0 <= k < |s| - 2 ==> !(s[k] == '\n' && s[k + 1] == '\n' && s[k + 2] == '\n')
  }

  /** `s` starts with a newline, and with two newlines. */
  predicate OneNewlineFirst(s: string) { |s| > 0 && s[0] == '\n' }
  predicate TwoNewlinesFirst(s: string) { |s| > 1 && s[0] == '\n' && s[1] == '\n' }

  /** Each maximal run of three or more newlines, taken greedily from the left, becomes two.
      The result starts with one or two newlines exactly when the input does, and is no
      longer. */
  function Collapse(s: string): (r: string)
    ensures OneNewlineFirst(r) == OneNewlineFirst(s)
    ensures TwoNewlinesFirst(r) == TwoNewlinesFirst(s)
    ensures |r| <= |s|
    decreases |s|
  {
    if s == [] then []
    else if NewlineRun(s) >= 3 then
      var n := NewlineRun(s);
      var c := Collapse(s[n..]);
      assert !OneNewlineFirst(s[n..]);
      "\n\n" + c
    else
      var c := Collapse(s[1..]);
      assert s[0] == '\n' ==> !TwoNewlinesFirst(s[1..]);
      [s[0]] + c
  }

  /** The result of the rewrite holds no run of three newlines. */
  lemma {:induction false} CollapseNoTriple(s: string)
    ensures NoTripleNewline(Collapse(s))
    decreases |s|
  {
    if s != [] {
      CollapseStep(s);
      var n := NewlineRun(s);
      if n >= 3 {
        var c := Collapse(s[n..]);
        CollapseNoTriple(s[n..]);
        ConsClean('\n', c);
        ConsClean('\n', "\n" + c);
        assert "\n\n" + c == ['\n'] + (['\n'] + c);
      } else {
        CollapseNoTriple(s[1..]);
        ConsClean(s[0], Collapse(s[1..]));
      }
    }
  }

  /** A character in front of clean text keeps it clean unless it makes a third newline. */
  lemma ConsClean(x: char, c: string)
    requires NoTripleNewline(c)
    requires !(x == '\n' && TwoNewlinesFirst(c))
    ensures NoTripleNewline([x] + c)
  {
    var s := [x] + c;
    forall k | 0 <= k < |s| - 2
      ensures !(s[k] == '\n' && s[k + 1] == '\n' && s[k + 2] == '\n')
    {
      if k > 0 {
        assert s[k] == c[k - 1] && s[k + 1] == c[k] && s[k + 2] == c[k + 1];
      }
    }
  }

  /** Text with no run of three newlines is left unchanged, so collapsing twice is collapsing once. */
  lemma {:induction false} CollapseKeepsClean(s: string)
    requires NoTripleNewline(s)
    ensures Collapse(s) == s
    decreases |s|
  {
    if s != [] {
      CleanHead(s);
      CollapseKeepsClean(s[1..]);
    }
  }

  /** Clean text starts with fewer than three newlines, and stays clean without its first
      character. */
  lemma CleanHead(s: string)
    requires s != [] && NoTripleNewline(s)
    ensures NewlineRun(s) < 3 && NoTripleNewline(s[1..])
  {
    assert |s| >= 3 ==> !(s[0] == '\n' && s[1] == '\n' && s[2] == '\n');
    forall k | 0 <= k < |s[1..]| - 2
      ensures !(s[1..][k] == '\n' && s[1..][k + 1] == '\n' && s[1..][k + 2] == '\n')
    {
      assert s[1..][k] == s[k + 1];
    }
  }

  /** `n` newlines. */
  function Newlines(n: nat): (r: string)
    ensures |r| == n && forall k :: 0 <= k < n ==> r[k] == '\n'
  {
    if n == 0 then [] else "\n" + Newlines(n - 1)
  }

  /** A run of three or more newlines between two other characters becomes exactly two, and
      the text on either side is collapsed on its own. */
  lemma {:induction false} CollapseRun(a: string, n: nat, b: string)
    requires n >= 3
    requires a == [] || a[|a| - 1] != '\n'
    requires b == [] || b[0] != '\n'
    ensures Collapse(a + (Newlines(n) + b)) == Collapse(a) + "\n\n" + Collapse(b)
    decreases |a|
  {
    var rest := Newlines(n) + b;
    if a == [] {
      assert a + rest == rest;
      CollapseRunFront(n, b);
    } else {
      var m := if NewlineRun(a) >= 3 then NewlineRun(a) else 1;
      var head := CollapseHead(a, rest, m);
      var a' := a[m..];
      assert a' != [] ==> a'[|a'| - 1] == a[|a| - 1];
      SliceConcat(a, rest, m);
      CollapseRun(a', n, b);
      Regroup(Collapse(a + rest), Collapse(a), Collapse(a' + rest), Collapse(a'), Collapse(b), head);
    }
  }

  lemma SliceConcat(a: string, rest: string, m: nat)
    requires m <= |a|
    ensures (a + rest)[m..] == a[m..] + rest
  {
  }

  lemma Regroup(whole: string, left: string, tail: string, leftTail: string, right: string, head: string)
    requires whole == head + tail && left == head + leftTail
    requires tail == leftTail + "\n\n" + right
    ensures whole == left + "\n\n" + right
  {
  }

  /** The run at the front is rewritten and the text after it collapsed. */
  lemma CollapseRunFront(n: nat, b: string)
    requires n >= 3
    requires b == [] || b[0] != '\n'
    ensures Collapse(Newlines(n) + b) == "\n\n" + Collapse(b)
  {
    var s := Newlines(n) + b;
    RunOfNewlines(n, b);
    CollapseStep(s);
    assert s[n..] == b;
  }

  /** When `a` ends with another character, the first step on `a + rest` is the first step on
      `a`: it consumes `m` characters of `a` and emits the same text. */
  lemma CollapseHead(a: string, rest: string, m: nat) returns (head: string)
    requires a != [] && a[|a| - 1] != '\n'
    requires m == if NewlineRun(a) >= 3 then NewlineRun(a) else 1
    ensures m <= |a|
    ensures Collapse(a + rest) == head + Collapse((a + rest)[m..])
    ensures Collapse(a) == head + Collapse(a[m..])
  {
    RunInside(a, rest);
    CollapseStep(a + rest);
    CollapseStep(a);
    head := if NewlineRun(a) >= 3 then "\n\n" else [a[0]];
    assert (a + rest)[0] == a[0];
  }

  /** One step of the rewrite: a run of three or more newlines at the front becomes two,
      otherwise the first character is kept. */
  lemma CollapseStep(s: string)
    requires s != []
    ensures NewlineRun(s) >= 3 ==> Collapse(s) == "\n\n" + Collapse(s[NewlineRun(s)..])
    ensures NewlineRun(s) < 3 ==> Collapse(s) == [s[0]] + Collapse(s[1..])
  {
  }

  lemma {:induction false} RunOfNewlines(n: nat, b: string)
    requires b == [] || b[0] != '\n'
    ensures NewlineRun(Newlines(n) + b) == n
    decreases n
  {
    if n > 0 {
      assert (Newlines(n) + b)[1..] == Newlines(n - 1) + b;
      RunOfNewlines(n - 1, b);
    } else {
      assert Newlines(n) + b == b;
    }
  }

  /** A run of newlines starting in `a` ends in `a` when `a` ends with another character. */
  lemma {:induction false} RunInside(a: string, rest: string)
    requires a != [] && a[|a| - 1] != '\n'
    ensures NewlineRun(a + rest) == NewlineRun(a) < |a|
    decreases |a|
  {
    if a[0] == '\n' {
      assert (a + rest)[1..] == a[1..] + rest;
      RunInside(a[1..], rest);
    }
  }

  /** The text without its newlines. */
  function Visible(s: string): (r: string)
    ensures '\n' !in r
  {
    if s == [] then [] else (if s[0] == '\n' then [] else [s[0]]) + Visible(s[1..])
  }

  /** Collapsing only removes newlines: every other character is kept, in order. */
  lemma {:induction false} CollapseKeepsText(s: string)
    ensures Visible(Collapse(s)) == Visible(s)
    decreases |s|
  {
    if s != [] {
      var n := NewlineRun(s);
      CollapseStep(s);
      if n >= 3 {
        var c := Collapse(s[n..]);
        calc {
          Visible(Collapse(s));
          Visible("\n\n" + c);
          { assert ("\n\n" + c)[1..] == "\n" + c; }
          Visible("\n" + c);
          { assert ("\n" + c)[1..] == c; }
          Visible(c);
          { CollapseKeepsText(s[n..]); }
          Visible(s[n..]);
          { SkipNewlines(s, n); }
          Visible(s);
        }
      } else {
        var c := Collapse(s[1..]);
        assert ([s[0]] + c)[0] == s[0] && ([s[0]] + c)[1..] == c;
        CollapseKeepsText(s[1..]);
      }
    }
  }

  lemma {:induction false} SkipNewlines(s: string, n: nat)
    requires n <= NewlineRun(s)
    ensures Visible(s) == Visible(s[n..])
    decreases n
  {
    if n > 0 {
      SkipNewlines(s[1..], n - 1);
      assert s[1..][n - 1..] == s[n..];
    }
  }

  /** Length of the whitespace run at the start of `s`. */
  function LeadingSpace(s: string): (n: nat)
    ensures n <= |s|
    ensures forall k :: 0 <= k < n ==> IsJsSpace(s[k])
    ensures n < |s| ==> !IsJsSpace(s[n])
  {
    if s != [] && IsJsSpace(s[0]) then 1 + LeadingSpace(s[1..]) else 0
  }

  /** Length of the whitespace run at the end of `s`. */
  function TrailingSpace(s: string): (n: nat)
    ensures n <= |s|
    ensures forall k :: |s| - n <= k < |s| ==> IsJsSpace(s[k])
    ensures n < |s| ==> !IsJsSpace(s[|s| - n - 1])
  {
    if s != [] && IsJsSpace(s[|s| - 1]) then 1 + TrailingSpace(s[..|s| - 1]) else 0
  }

  predicate Trimmed(s: string)
  {
    s == [] || (!IsJsSpace(s[0]) && !IsJsSpace(s[|s| - 1]))
  }

  /** `trim()`: the text between the leading and the trailing whitespace. It starts and ends
      with a non-space, keeps a text that already does, and adds no run of newlines. */
  function Trim(s: string): (r: string)
    ensures exists i, j ::
      && 0 <= i <= j <= |s| && r == s[i..j]
      && (forall k :: 0 <= k < i ==> IsJsSpace(s[k]))
      && (forall k :: j <= k < |s| ==> IsJsSpace(s[k]))
    ensures Trimmed(r)
    ensures Trimmed(s) ==> r == s
    ensures NoTripleNewline(s) ==> NoTripleNewline(r)
  {
    var i := LeadingSpace(s);
    var j := |s| - TrailingSpace(s[i..]);
    TrimBounds(s, i, j);
    SliceClean(s, i, j);
    s[i..j]
  }

  /** The two whitespace runs `trim` removes leave a trimmed middle; there are none to remove
      from trimmed text. */
  lemma TrimBounds(s: string, i: nat, j: int)
    requires i == LeadingSpace(s) && j == |s| - TrailingSpace(s[i..])
    ensures i <= j <= |s|
    ensures forall k :: j <= k < |s| ==> IsJsSpace(s[k])
    ensures Trimmed(s[i..j])
    ensures Trimmed(s) ==> i == 0 && j == |s|
  {
    TrailingOfSuffix(s, i);
    TrimMiddle(s, i, j, TrailingSpace(s[i..]));
    if Trimmed(s) {
      TrimNothing(s);
    }
  }

  /** The trailing run of a suffix, read in the whole text. */
  lemma TrailingOfSuffix(s: string, i: nat)
    requires i <= |s|
    ensures TrailingSpace(s[i..]) <= |s| - i
    ensures forall k :: |s| - TrailingSpace(s[i..]) <= k < |s| ==> IsJsSpace(s[k])
    ensures TrailingSpace(s[i..]) < |s| - i ==> !IsJsSpace(s[|s| - TrailingSpace(s[i..]) - 1])
  {
    var t := s[i..];
    var n := TrailingSpace(t);
    forall k | |s| - n <= k < |s|
      ensures IsJsSpace(s[k])
    {
      assert s[k] == t[k - i];
    }
    if n < |t| {
      assert s[|s| - n - 1] == t[|t| - n - 1];
    }
  }

  /** Between a non-space at `i` and a non-space just before the last `n` characters, the
      text is trimmed. */
  lemma TrimMiddle(s: string, i: nat, j: int, n: nat)
    requires i <= |s| && (i < |s| ==> !IsJsSpace(s[i]))
    requires n <= |s| - i && j == |s| - n && (n < |s| - i ==> !IsJsSpace(s[|s| - n - 1]))
    ensures Trimmed(s[i..j])
  {
    var m := s[i..j];
    if i < j {
      assert m[0] == s[i];
      assert m[|m| - 1] == s[j - 1];
    }
  }

  lemma TrimNothing(s: string)
    requires Trimmed(s)
    ensures LeadingSpace(s) == 0 && TrailingSpace(s[0..]) == 0
  {
    assert s[0..] == s;
  }

  /** A slice of text without a run of three newlines has none either. */
  lemma SliceClean(s: string, i: nat, j: nat)
    requires i <= j <= |s|
    ensures NoTripleNewline(s) ==> NoTripleNewline(s[i..j])
  {
    if NoTripleNewline(s) {
      forall k | 0 <= k < |s[i..j]| - 2
        ensures !(s[i..j][k] == '\n' && s[i..j][k + 1] == '\n' && s[i..j][k + 2] == '\n')
      {
        assert s[i..j][k] == s[i + k] && s[i..j][k + 1] == s[i + k + 1] && s[i..j][k + 2] == s[i + k + 2];
      }
    }
  }

  // ---------------------------------------------------------------------------------------
  // The whole chain

  /** Lines 31-48: unwrap, headings, bold, links, blank lines, trim, in that order. The result
      has no run of three newlines and no whitespace at either end. */
  function Format(report: string): (r: string)
    ensures NoTripleNewline(r)
    ensures Trimmed(r)
  {
    var text := Links(Bold(H3(H2(H1(Unwrap(report))))));
    CollapseNoTriple(text);
    Trim(Collapse(text))
  }
}
