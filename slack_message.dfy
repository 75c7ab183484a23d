/** The part of `sendToSlack` (scripts/send-to-slack.js) between reading the report and posting
    it: the formatted text is split into lines, the lines are packed greedily into chunks of at
    most 2800 UTF-16 code units (JavaScript's `length`), and the chunks become the sections of
    a block-kit message. */
module SlackMessage {
  import opened Strings
  import SlackFormat

  /** The per-chunk bound the loop tests against (Slack allows 3000 per block). */
  const ChunkLimit: nat := 2800

  /** Each line followed by '\n', concatenated: the text a group of lines contributes. */
  function Framed(lines: seq<string>): string
  {
    if lines == [] then "" else lines[0] + "\n" + Framed(lines[1..])
  }

  /** Every line ends up in exactly one place, so framing distributes over concatenation. */
  lemma {:induction false} FramedAppend(xs: seq<string>, ys: seq<string>)
    ensures Framed(xs + ys) == Framed(xs) + Framed(ys)
  {
    if xs != [] {
      calc {
        Framed(xs + ys);
        { assert (xs + ys)[0] == xs[0]; assert (xs + ys)[1..] == xs[1..] + ys; }
        xs[0] + "\n" + Framed(xs[1..] + ys);
        { FramedAppend(xs[1..], ys); }
        xs[0] + "\n" + (Framed(xs[1..]) + Framed(ys));
      }
    } else {
      assert xs + ys == ys;
    }
  }

  /** Framing the pieces of a split is the text with a final newline. */
  lemma {:induction false} FramedJoin(lines: seq<string>)
    requires |lines| >= 1
    ensures Framed(lines) == Join(lines, '\n') + "\n"
  {
    if |lines| > 1 {
      FramedJoin(lines[1..]);
    }
  }

  function Flatten(groups: seq<seq<string>>): seq<string>
  {
    if groups == [] then [] else groups[0] + Flatten(groups[1..])
  }

  function Concat(chunks: seq<string>): string
  {
    if chunks == [] then "" else chunks[0] + Concat(chunks[1..])
  }

  /** The chunk strings of a grouping. */
  function Rendered(groups: seq<seq<string>>): (chunks: seq<string>)
    ensures |chunks| == |groups|
    ensures forall k :: 0 <= k < |groups| ==> chunks[k] == Framed(groups[k])
  {
    seq(|groups|, k requires 0 <= k < |groups| => Framed(groups[k]))
  }

  /** A chunk is within the bound, or holds a single line that alone exceeds it. */
  predicate Fits(group: seq<string>)
  {
    Utf16Length(Framed(group)) <= ChunkLimit || |group| == 1
  }

  /** The chunking loop as a function of the lines still to come and the lines of the chunk
      being filled: a line goes into the current chunk unless it would push its text past the
      limit, in which case the current chunk is closed (even when it is still empty) and the
      line starts the next one. The last chunk is kept only if it is not empty. */
  function PackFrom(lines: seq<string>, current: seq<string>): seq<seq<string>>
  {
    if lines == [] then (if current == [] then [] else [current])
    else if Utf16Length(Framed(current)) + Utf16Length(lines[0]) + 1 > ChunkLimit then [current] + PackFrom(lines[1..], [lines[0]])
    else PackFrom(lines[1..], current + [lines[0]])
  }

  /** The groups of lines that make up the chunks. */
  function Groups(lines: seq<string>): seq<seq<string>>
  {
    PackFrom(lines, [])
  }

  /** Adding a line to a group adds the line and its '\n' to the chunk's JavaScript length. */
  lemma FramedOne(line: string, current: seq<string>)
    ensures Framed([line]) == line + "\n"
    ensures Framed(current + [line]) == Framed(current) + line + "\n"
    ensures Utf16Length(Framed(current) + line + "\n") == Utf16Length(Framed(current)) + Utf16Length(line) + 1
  {
    FramedAppend(current, [line]);
    Utf16Append(Framed(current) + line, "\n");
    Utf16Append(Framed(current), line);
  }

  lemma {:induction false} FramedEmpty(group: seq<string>)
    ensures (Framed(group) == "") == (group == [])
  {
  }

  /** Lines 51-63, the loop that fills `chunks`. */
  method SplitIntoChunks(lines: seq<string>) returns (chunks: seq<string>)
    ensures chunks == Rendered(Groups(lines))
  {
    chunks := [];
    var current := "";
    ghost var done: seq<seq<string>> := [];
    ghost var group: seq<string> := [];
    for i := 0 to |lines|
      invariant chunks == Rendered(done)
      invariant current == Framed(group)
      invariant done + PackFrom(lines[i..], group) == Groups(lines)
    {
      var line := lines[i];
      FramedOne(line, group);
      PackStep(lines, i, group);
      if Utf16Length(current + line + "\n") > ChunkLimit {
        RenderedAppend(done, group);
        chunks := chunks + [current];
        done := done + [group];
        current := line + "\n";
        group := [line];
      } else {
        current := current + line + "\n";
        group := group + [line];
      }
    }
    assert lines[|lines|..] == [];
    FramedEmpty(group);
    if current != "" {
      chunks := chunks + [current];
      done := done + [group];
    }
  }

  /** One turn of the loop on line `i`: the line closes the current group or joins it. */
  lemma PackStep(lines: seq<string>, i: nat, group: seq<string>)
    requires i < |lines|
    ensures Utf16Length(Framed(group)) + Utf16Length(lines[i]) + 1 > ChunkLimit ==>
      PackFrom(lines[i..], group) == [group] + PackFrom(lines[i + 1..], [lines[i]])
    ensures Utf16Length(Framed(group)) + Utf16Length(lines[i]) + 1 <= ChunkLimit ==>
      PackFrom(lines[i..], group) == PackFrom(lines[i + 1..], group + [lines[i]])
  {
    assert lines[i..][0] == lines[i] && lines[i..][1..] == lines[i + 1..];
  }

  lemma RenderedAppend(done: seq<seq<string>>, group: seq<string>)
    ensures Rendered(done + [group]) == Rendered(done) + [Framed(group)]
  {
  }

  // ---------------------------------------------------------------------------------------
  // What the packing guarantees

  lemma {:induction false} PackFlatten(lines: seq<string>, current: seq<string>)
    ensures Flatten(PackFrom(lines, current)) == current + lines
  {
    if lines == [] {
      assert current + lines == current;
    } else {
      var line, rest := lines[0], lines[1..];
      assert lines == [line] + rest;
      if Utf16Length(Framed(current)) + Utf16Length(line) + 1 > ChunkLimit {
        var p := PackFrom(rest, [line]);
        assert PackFrom(lines, current) == [current] + p;
        PackFlatten(rest, [line]);
        FlattenCons(current, p);
      } else {
        PackFlatten(rest, current + [line]);
        assert current + [line] + rest == current + lines;
      }
    }
  }

  lemma FlattenCons(group: seq<string>, groups: seq<seq<string>>)
    ensures Flatten([group] + groups) == group + Flatten(groups)
  {
    assert ([group] + groups)[0] == group && ([group] + groups)[1..] == groups;
  }

  /** Lines are never split, dropped or reordered: the groups, read in order, are the lines. */
  lemma GroupsAreLines(lines: seq<string>)
    ensures Flatten(Groups(lines)) == lines
  {
    PackFlatten(lines, []);
  }

  lemma {:induction false} ConcatRendered(groups: seq<seq<string>>)
    ensures Concat(Rendered(groups)) == Framed(Flatten(groups))
  {
    if groups != [] {
      assert Rendered(groups)[1..] == Rendered(groups[1..]);
      ConcatRendered(groups[1..]);
      FramedAppend(groups[0], Flatten(groups[1..]));
    }
  }

  /** The chunks, concatenated, are exactly the lines each followed by '\n'. */
  lemma ChunksConserveText(lines: seq<string>)
    ensures Concat(Rendered(Groups(lines))) == Framed(lines)
  {
    ConcatRendered(Groups(lines));
    GroupsAreLines(lines);
  }

  lemma {:induction false} PackFits(lines: seq<string>, current: seq<string>)
    requires Fits(current)
    ensures forall k :: 0 <= k < |PackFrom(lines, current)| ==> Fits(PackFrom(lines, current)[k])
  {
    if lines != [] {
      FramedOne(lines[0], current);
      if Utf16Length(Framed(current)) + Utf16Length(lines[0]) + 1 > ChunkLimit {
        PackFits(lines[1..], [lines[0]]);
      } else {
        PackFits(lines[1..], current + [lines[0]]);
      }
    }
  }

  /** Every chunk is at most 2800 UTF-16 code units, or is a single line with its '\n'. */
  lemma ChunksFit(lines: seq<string>)
    ensures forall k :: 0 <= k < |Groups(lines)| ==> Fits(Groups(lines)[k])
  {
    PackFits(lines, []);
  }

  /** Once the current chunk holds a line, every chunk from here on holds one, and the first
      starts with the current chunk's first line. */
  lemma {:induction false} PackNonEmpty(lines: seq<string>, current: seq<string>)
    requires current != []
    ensures var p := PackFrom(lines, current);
      && |p| >= 1 && p[0] != [] && p[0][0] == current[0]
      && forall k :: 0 <= k < |p| ==> p[k] != []
  {
    if lines != [] {
      if Utf16Length(Framed(current)) + Utf16Length(lines[0]) + 1 > ChunkLimit {
        PackNonEmpty(lines[1..], [lines[0]]);
      } else {
        PackNonEmpty(lines[1..], current + [lines[0]]);
      }
    }
  }

  /** At least one chunk is produced for any line; only the first chunk can be empty, and it is
      empty exactly when the first line with its '\n' alone exceeds the limit. */
  lemma ChunkEmptiness(lines: seq<string>)
    ensures lines == [] ==> Groups(lines) == []
    ensures lines != [] ==> |Groups(lines)| >= 1
    ensures lines != [] ==> (Groups(lines)[0] == [] <==> Utf16Length(lines[0]) + 1 > ChunkLimit)
    ensures forall k :: 1 <= k < |Groups(lines)| ==> Groups(lines)[k] != []
  {
    if lines != [] {
      PackNonEmpty(lines[1..], [lines[0]]);
      assert [] + [lines[0]] == [lines[0]];
      if Utf16Length(lines[0]) + 1 > ChunkLimit {
        assert Groups(lines) == [[]] + PackFrom(lines[1..], [lines[0]]);
      } else {
        assert Groups(lines) == PackFrom(lines[1..], [lines[0]]);
      }
    }
  }

  /** `next` starts with a line that, with its '\n', would have pushed `group` past the limit. */
  predicate ClosedBefore(group: seq<string>, next: seq<string>)
  {
    next != [] && Utf16Length(Framed(group)) + Utf16Length(next[0]) + 1 > ChunkLimit
  }

  /** Greedy packing: a chunk is closed only when the first line of the next one, with its
      '\n', would have pushed it past the limit. */
  lemma {:induction false} PackGreedy(lines: seq<string>, current: seq<string>)
    ensures forall k :: 1 <= k < |PackFrom(lines, current)| ==>
      ClosedBefore(PackFrom(lines, current)[k - 1], PackFrom(lines, current)[k])
  {
    if lines != [] {
      var rest := lines[1..];
      if Utf16Length(Framed(current)) + Utf16Length(lines[0]) + 1 > ChunkLimit {
        PackGreedy(rest, [lines[0]]);
        PackNonEmpty(rest, [lines[0]]);
        var q := PackFrom(rest, [lines[0]]);
        assert PackFrom(lines, current) == [current] + q;
      } else {
        PackGreedy(rest, current + [lines[0]]);
        assert PackFrom(lines, current) == PackFrom(rest, current + [lines[0]]);
      }
    }
  }

  lemma ChunksGreedy(lines: seq<string>)
    ensures forall k :: 1 <= k < |Groups(lines)| ==> ClosedBefore(Groups(lines)[k - 1], Groups(lines)[k])
  {
    PackGreedy(lines, []);
    assert Groups(lines) == PackFrom(lines, []);
  }

  // ---------------------------------------------------------------------------------------
  // The message

  /** The block kinds the message uses; a section carries mrkdwn text. */
  datatype Block =
    | Header(plainText: string)
    | Context(mrkdwn: string)
    | Divider
    | Section(text: string)

  /** The body of the webhook POST: fallback text and the blocks. */
  datatype Payload = Payload(text: string, blocks: seq<Block>)

  const Title: string := "\U{1F4CA} Daily PR Report"

  /** Header, context line with the local date and time, divider. */
  function Preamble(date: string, time: string): seq<Block>
  {
    [Header(Title), Context("Generated on " + date + " at " + time), Divider]
  }

  /** Lines 69-101: the preamble, then one section per chunk, pushed in chunk order. */
  method BuildBlocks(chunks: seq<string>, date: string, time: string) returns (blocks: seq<Block>)
    ensures |blocks| == 3 + |chunks|
    ensures blocks[..3] == Preamble(date, time)
    ensures forall k :: 0 <= k < |chunks| ==> blocks[3 + k] == Section(chunks[k])
  {
    blocks := Preamble(date, time);
    for i := 0 to |chunks|
      invariant |blocks| == 3 + i
      invariant blocks[..3] == Preamble(date, time)
      invariant forall k :: 0 <= k < i ==> blocks[3 + k] == Section(chunks[k])
    {
      blocks := blocks + [Section(chunks[i])];
    }
  }

  /** A chunk that is over the limit is one line and its '\n'. */
  predicate SingleLine(text: string)
  {
    |text| > 0 && text[|text| - 1] == '\n' && '\n' !in text[..|text| - 1]
  }

  /** Lines 30-106: the report text becomes the payload. The sections, in order, spell out the
      formatted text plus a final newline; each is within the limit or a single line; only the
      first can be empty, and there is always at least one. */
  method ComposeMessage(report: string, date: string, time: string) returns (payload: Payload)
    ensures payload.text == Title + " - " + date
    ensures |payload.blocks| >= 4 && payload.blocks[..3] == Preamble(date, time)
    ensures forall k :: 3 <= k < |payload.blocks| ==> payload.blocks[k].Section?
    ensures SectionTexts(payload.blocks[3..]) == Rendered(Groups(Split(SlackFormat.Format(report), '\n')))
    ensures Concat(SectionTexts(payload.blocks[3..])) == SlackFormat.Format(report) + "\n"
    ensures forall k :: 3 <= k < |payload.blocks| ==>
      Utf16Length(payload.blocks[k].text) <= ChunkLimit || SingleLine(payload.blocks[k].text)
    ensures forall k :: 4 <= k < |payload.blocks| ==> payload.blocks[k].text != ""
  {
    var formatted := SlackFormat.Format(report);
    var lines := Split(formatted, '\n');
    var chunks := SplitIntoChunks(lines);
    TextChunks(formatted, chunks);
    var blocks := BuildBlocks(chunks, date, time);
    SectionsAfterPreamble(blocks, chunks);
    payload := Payload(Title + " - " + date, blocks);
    forall k | 3 <= k < |blocks|
      ensures blocks[k].Section? && blocks[k].text == chunks[k - 3]
    {
      assert blocks[3 + (k - 3)] == Section(chunks[k - 3]);
    }
  }

  /** The chunks of a text split at '\n' spell out the text with a final newline. */
  lemma TextChunks(text: string, chunks: seq<string>)
    requires chunks == Rendered(Groups(Split(text, '\n')))
    ensures |chunks| >= 1 && Concat(chunks) == text + "\n"
    ensures forall k :: 0 <= k < |chunks| ==> Utf16Length(chunks[k]) <= ChunkLimit || SingleLine(chunks[k])
    ensures forall k :: 1 <= k < |chunks| ==> chunks[k] != ""
  {
    var lines := Split(text, '\n');
    ChunkTexts(lines, chunks);
    FramedJoin(lines);
    JoinSplit(text, '\n');
  }

  /** The section blocks after the preamble carry the chunks. */
  lemma SectionsAfterPreamble(blocks: seq<Block>, chunks: seq<string>)
    requires |blocks| == 3 + |chunks|
    requires forall k :: 0 <= k < |chunks| ==> blocks[3 + k] == Section(chunks[k])
    ensures SectionTexts(blocks[3..]) == chunks
  {
    assert forall k :: 0 <= k < |chunks| ==> blocks[3..][k] == blocks[3 + k];
  }

  /** What the chunks of a split text look like, for a text with at least one line. */
  lemma ChunkTexts(lines: seq<string>, chunks: seq<string>)
    requires |lines| >= 1 && chunks == Rendered(Groups(lines))
    requires forall line :: line in lines ==> '\n' !in line
    ensures |chunks| >= 1 && Concat(chunks) == Framed(lines)
    ensures forall k :: 0 <= k < |chunks| ==> Utf16Length(chunks[k]) <= ChunkLimit || SingleLine(chunks[k])
    ensures forall k :: 1 <= k < |chunks| ==> chunks[k] != ""
  {
    var g := Groups(lines);
    ChunkEmptiness(lines);
    ChunksConserveText(lines);
    ChunksFit(lines);
    forall k | 0 <= k < |chunks|
      ensures Utf16Length(chunks[k]) <= ChunkLimit || SingleLine(chunks[k])
    {
      if |g[k]| == 1 {
        FramedOne(g[k][0], []);
        assert chunks[k] == Framed(g[k]) == g[k][0] + "\n";
        assert chunks[k][..|chunks[k]| - 1] == g[k][0];
        GroupMember(lines, k);
      }
    }
    forall k | 1 <= k < |chunks|
      ensures chunks[k] != ""
    {
      assert chunks[k] == Framed(g[k]);
      FramedEmpty(g[k]);
    }
  }

  /** The texts of a run of section blocks. */
  function SectionTexts(blocks: seq<Block>): seq<string>
  {
    seq(|blocks|, k requires 0 <= k < |blocks| => if blocks[k].Section? then blocks[k].text else "")
  }

  /** A line of a group is one of the lines packed. */
  lemma GroupMember(lines: seq<string>, k: nat)
    requires k < |Groups(lines)| && |Groups(lines)[k]| == 1
    ensures Groups(lines)[k][0] in lines
  {
    GroupsAreLines(lines);
    FlattenMember(Groups(lines), k, 0);
  }

  lemma {:induction false} FlattenMember(groups: seq<seq<string>>, k: nat, i: nat)
    requires k < |groups| && i < |groups[k]|
    ensures groups[k][i] in Flatten(groups)
  {
    if k > 0 {
      FlattenMember(groups[1..], k - 1, i);
    }
  }
}
