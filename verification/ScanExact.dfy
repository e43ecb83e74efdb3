/** What the command scanner (utility/rgw_command_extractor.py) collects, in terms of the lines of
    the log and their positions. */
module ScanExact {
  import opened Basics
  import opened Options
  import opened LogScanner

  // ----- the segments ------------------------------------------------------

  /** Something is left of the line after cleaning. */
  predicate Says<O>(line: string, text: Text<O>) { text.clean(line).Some? && text.clean(line).value != "" }

  predicate IsCommand<O>(line: string, text: Text<O>) {
    Says(line, text) && text.command(text.clean(line).value).Some?
  }

  function CommandIn<O>(line: string, text: Text<O>): string
    requires IsCommand(line, text)
  {
    text.command(text.clean(line).value).value
  }

  /** The positions of the command lines. */
  function CommandsAt<O>(lines: seq<string>, text: Text<O>): (at: seq<nat>)
    ensures AscendingBelow(at, |lines|)
    ensures forall i: nat :: i in at <==> i < |lines| && IsCommand(lines[i], text)
  {
    if lines == [] then []
    else
      var n := |lines| - 1;
      OneMoreAscends(CommandsAt(lines[..n], text), n);
      CommandsAt(lines[..n], text) + if IsCommand(lines[n], text) then [n] else []
  }

  /** What the lines that say something come to, in order. */
  function Said<O>(lines: seq<string>, text: Text<O>): seq<string> {
    if lines == [] then []
    else
      var n := |lines| - 1;
      Said(lines[..n], text) + if Says(lines[n], text) then [text.clean(lines[n]).value] else []
  }

  ghost predicate CommandPositions<O>(lines: seq<string>, text: Text<O>, at: seq<nat>) {
    AscendingBelow(at, |lines|) && forall k :: 0 <= k < |at| ==> IsCommand(lines[at[k]], text)
  }

  /** The segment at k is the k-th command line with the output up to the next one. */
  ghost predicate SegmentAt<O>(lines: seq<string>, text: Text<O>, at: seq<nat>, segments: seq<Segment>, k: nat)
    requires CommandPositions(lines, text, at) && k + 1 < |at| && k < |segments|
  {
    segments[k] == Segment(CommandIn(lines[at[k]], text), Said(lines[at[k] + 1..at[k + 1]], text))
  }

  ghost predicate SegmentsAre<O>(lines: seq<string>, text: Text<O>, at: seq<nat>, segments: seq<Segment>)
    requires CommandPositions(lines, text, at)
  {
    && |segments| == (if at == [] then 0 else |at| - 1)
    && forall k: nat :: k + 1 < |at| ==> SegmentAt(lines, text, at, segments, k)
  }

  /** The output behind the last command line. */
  ghost predicate OpenIs<O>(lines: seq<string>, text: Text<O>, at: seq<nat>, open: Option<Segment>)
    requires CommandPositions(lines, text, at)
  {
    open == if at == [] then None
            else Some(Segment(CommandIn(lines[at[|at| - 1]], text), Said(lines[at[|at| - 1] + 1..], text)))
  }

  lemma SaidMore<O>(lines: seq<string>, line: string, text: Text<O>)
    ensures Said(lines + [line], text) ==
            Said(lines, text) + if Says(line, text) then [text.clean(line).value] else []
  {
    assert (lines + [line])[..|lines|] == lines;
  }

  lemma SegmentStays<O>(init: seq<string>, line: string, text: Text<O>, at: seq<nat>, segments: seq<Segment>,
                        at': seq<nat>, segments': seq<Segment>, k: nat)
    requires CommandPositions(init, text, at) && CommandPositions(init + [line], text, at')
    requires k + 1 < |at| && k < |segments| && at <= at' && segments <= segments'
    requires SegmentAt(init, text, at, segments, k)
    ensures SegmentAt(init + [line], text, at', segments', k)
  {
    assert (init + [line])[at[k] + 1..at[k + 1]] == init[at[k] + 1..at[k + 1]];
  }

  lemma OpenGoesOn<O>(init: seq<string>, line: string, text: Text<O>, at: seq<nat>, open: Option<Segment>)
    requires CommandPositions(init, text, at) && CommandPositions(init + [line], text, at)
    requires OpenIs(init, text, at, open)
    ensures OpenIs(init + [line], text, at,
                   if open.None? || !Says(line, text) then open
                   else Some(Segment(open.value.command, open.value.lines + [text.clean(line).value])))
  {
    if at != [] {
      var i := at[|at| - 1];
      var said := Said(init[i + 1..], text);
      assert (init + [line])[i + 1..] == init[i + 1..] + [line];
      SaidMore(init[i + 1..], line, text);
      assert said + [] == said;
    }
  }

  lemma SegmentsStay<O>(init: seq<string>, line: string, text: Text<O>, at: seq<nat>, segments: seq<Segment>)
    requires CommandPositions(init, text, at) && CommandPositions(init + [line], text, at)
    requires SegmentsAre(init, text, at, segments)
    ensures SegmentsAre(init + [line], text, at, segments)
  {
    forall k: nat | k + 1 < |at| ensures SegmentAt(init + [line], text, at, segments, k) {
      SegmentStays(init, line, text, at, segments, at, segments, k);
    }
  }

  lemma PositionsStay<O>(init: seq<string>, line: string, text: Text<O>, at: seq<nat>)
    requires CommandPositions(init, text, at)
    ensures CommandPositions(init + [line], text, at)
    ensures IsCommand(line, text) ==> CommandPositions(init + [line], text, at + [|init|])
  {
    OneMoreAscends(at, |init|);
  }

  lemma ClosedByCommand<O>(init: seq<string>, line: string, text: Text<O>, at: seq<nat>, segments: seq<Segment>,
                           open: Option<Segment>)
    requires CommandPositions(init, text, at) && CommandPositions(init + [line], text, at + [|init|])
    requires SegmentsAre(init, text, at, segments) && OpenIs(init, text, at, open)
    ensures SegmentsAre(init + [line], text, at + [|init|], segments + if open.Some? then [open.value] else [])
  {
    var lines, at', segments' := init + [line], at + [|init|], segments + if open.Some? then [open.value] else [];
    forall k: nat | k + 1 < |at'| ensures SegmentAt(lines, text, at', segments', k) {
      if k + 1 < |at| {
        SegmentStays(init, line, text, at, segments, at', segments', k);
      } else {
        assert lines[at[k] + 1..|init|] == init[at[k] + 1..];
      }
    }
  }

  lemma CommandsMore<O>(init: seq<string>, line: string, text: Text<O>)
    ensures CommandsAt(init + [line], text) ==
            CommandsAt(init, text) + if IsCommand(line, text) then [|init|] else []
  {
    assert (init + [line])[..|init|] == init;
  }

  lemma CommandsArePositions<O>(lines: seq<string>, text: Text<O>)
    ensures CommandPositions(lines, text, CommandsAt(lines, text))
  {
    var at := CommandsAt(lines, text);
    forall k | 0 <= k < |at| ensures IsCommand(lines[at[k]], text) { assert at[k] in at; }
  }

  ghost predicate Described<O>(lines: seq<string>, text: Text<O>, at: seq<nat>, items: seq<Item>) {
    && CommandPositions(lines, text, at)
    && SegmentsAre(lines, text, at, Segments(items)) && OpenIs(lines, text, at, Open(items))
  }

  lemma ItemsMore<O>(init: seq<string>, line: string, text: Text<O>)
    ensures Items(init + [line], text) ==
            if !Says(line, text) then Items(init, text)
            else if IsCommand(line, text) then Items(init, text) + [Cmd(CommandIn(line, text))]
            else Items(init, text) + [Out(text.clean(line).value)]
  {
    var lines := init + [line];
    assert lines[..|init| + 1] == lines && lines[..|init|] == init;
    NextItem(lines, |init|, text);
  }

  lemma DescribedOutput<O>(init: seq<string>, line: string, text: Text<O>, at: seq<nat>, items: seq<Item>)
    requires Described(init, text, at, items) && !IsCommand(line, text)
    ensures Described(init + [line], text, at,
                      if Says(line, text) then items + [Out(text.clean(line).value)] else items)
  {
    if Says(line, text) { OneMoreItem(items, Out(text.clean(line).value)); }
    PositionsStay(init, line, text, at);
    SegmentsStay(init, line, text, at, Segments(items));
    OpenGoesOn(init, line, text, at, Open(items));
  }

  lemma DescribedCommand<O>(init: seq<string>, line: string, text: Text<O>, at: seq<nat>, items: seq<Item>)
    requires Described(init, text, at, items) && IsCommand(line, text)
    ensures Described(init + [line], text, at + [|init|], items + [Cmd(CommandIn(line, text))])
  {
    OneMoreItem(items, Cmd(CommandIn(line, text)));
    PositionsStay(init, line, text, at);
    ClosedByCommand(init, line, text, at, Segments(items), Open(items));
    assert (init + [line])[|init| + 1..] == [];
  }

  /** The segments are the command lines with the output up to the next command line, and the
      one behind the last is open. */
  lemma {:induction false} SegmentsExactly<O>(lines: seq<string>, text: Text<O>)
    ensures Described(lines, text, CommandsAt(lines, text), Items(lines, text))
  {
    CommandsArePositions(lines, text);
    if lines != [] {
      var n := |lines| - 1;
      var init, line := lines[..n], lines[n];
      var at, items := CommandsAt(init, text), Items(init, text);
      assert lines == init + [line];
      SegmentsExactly(init, text);
      CommandsMore(init, line, text);
      ItemsMore(init, line, text);
      if IsCommand(line, text) {
        DescribedCommand(init, line, text, at, items);
      } else {
        DescribedOutput(init, line, text, at, items);
        assert at + [] == at;
      }
    }
  }

  // ----- what is collected -------------------------------------------------

  function HashOf<O>(s: Segment, text: Text<O>): string { text.hash(text.output(s.lines)) }

  /** A command with output, and the first one with output of this hash. */
  ghost predicate Entered<O>(segments: seq<Segment>, text: Text<O>, i: nat)
    requires i < |segments|
  {
    && segments[i].command != "" && segments[i].lines != []
    && forall j :: 0 <= j < i && segments[j].command != "" && segments[j].lines != [] ==>
         HashOf(segments[j], text) != HashOf(segments[i], text)
  }

  ghost predicate CollectedAt<O>(segments: seq<Segment>, text: Text<O>, at: seq<nat>, entries: seq<Entry<O>>) {
    && AscendingBelow(at, |segments|) && |entries| == |at|
    && (forall i: nat :: i < |segments| ==> (i in at <==> Entered(segments, text, i)))
    && forall k :: 0 <= k < |at| ==>
         var s := segments[at[k]]; entries[k] == Entry(s.command, text.output(s.lines), HashOf(s, text))
  }

  lemma EnteredStays<O>(segments: seq<Segment>, text: Text<O>, s: Segment, i: nat)
    requires i < |segments|
    ensures Entered(segments + [s], text, i) <==> Entered(segments, text, i)
  {
    var more := segments + [s];
    assert forall j :: 0 <= j <= i ==> more[j] == segments[j];
  }

  lemma EnteredLast<O>(segments: seq<Segment>, text: Text<O>, s: Segment)
    ensures Entered(segments + [s], text, |segments|) <==>
            Counts(s) && HashOf(s, text) !in Hashes(Collected(segments, text))
  {
    CollectedExactly(segments, text);
    var h := HashOf(s, text);
    assert FromSegment(h, segments, text) <==>
           exists j :: 0 <= j < |segments| && Counts(segments[j]) && HashOf(segments[j], text) == h;
    var more := segments + [s];
    assert forall j :: 0 <= j < |segments| ==> more[j] == segments[j];
  }

  /** One entry for each command with output, in order, but only for the first with an output of
      its hash; its output is that of the segment's lines, and its hash that of the output. */
  lemma {:induction false} CollectedInOrder<O>(segments: seq<Segment>, text: Text<O>) returns (at: seq<nat>)
    ensures CollectedAt(segments, text, at, Collected(segments, text))
  {
    at := [];
    if segments != [] {
      var n := |segments| - 1;
      var init, s := segments[..n], segments[n];
      assert segments == init + [s];
      at := CollectedInOrder(init, text);
      OneMoreAscends(at, n);
      CollectedMore(init, s, text);
      EnteredLast(init, text, s);
      forall i: nat | i < n ensures Entered(segments, text, i) <==> Entered(init, text, i) {
        EnteredStays(init, text, s, i);
      }
      if Entered(segments, text, n) { at := at + [n]; }
    }
  }

  // ----- what is saved -----------------------------------------------------

  predicate For<O>(e: Entry<O>, name: string, text: Text<O>) { text.subcommand(e.command) == Some(name) }

  /** An entry for the file whose hash is not there yet, nor that of an earlier one. */
  ghost predicate News<O>(was: seq<Entry<O>>, entries: seq<Entry<O>>, name: string, text: Text<O>, i: nat)
    requires i < |entries|
  {
    && For(entries[i], name, text) && entries[i].hash !in Hashes(was)
    && forall j :: 0 <= j < i && For(entries[j], name, text) ==> entries[j].hash != entries[i].hash
  }

  ghost predicate NewsAt<O>(was: seq<Entry<O>>, entries: seq<Entry<O>>, name: string, text: Text<O>, at: seq<nat>) {
    forall i: nat :: i < |entries| ==> (i in at <==> News(was, entries, name, text, i))
  }

  /** A file keeps what it has, and the news are appended in order. */
  lemma {:induction false} SavedInOrder<O>(files: Files<O>, entries: seq<Entry<O>>, name: string, text: Text<O>)
    returns (at: seq<nat>, news: seq<Entry<O>>)
    requires AllDistinct(files)
    ensures FileOf(SavedAll(files, entries, text), name) == FileOf(files, name) + news && Picks(entries, at, news)
    ensures NewsAt(FileOf(files, name), entries, name, text, at)
  {
    at, news := [], [];
    if entries != [] {
      var n := |entries| - 1;
      var init, e := entries[..n], entries[n];
      assert entries == init + [e];
      at, news := SavedInOrder(files, init, name, text);
      PicksMore(init, at, news, e);
      NewsLast(files, init, e, name, text);
      NewsAtMore(FileOf(files, name), init, e, name, text, at);
      if News(FileOf(files, name), init + [e], name, text, n) { at, news := at + [n], news + [e]; }
    }
  }

  lemma NewsAtMore<O>(was: seq<Entry<O>>, init: seq<Entry<O>>, e: Entry<O>, name: string, text: Text<O>, at: seq<nat>)
    requires NewsAt(was, init, name, text, at) && forall i: nat :: i in at ==> i < |init|
    ensures NewsAt(was, init + [e], name, text,
                   if News(was, init + [e], name, text, |init|) then at + [|init|] else at)
  {
    forall i: nat | i < |init| ensures News(was, init + [e], name, text, i) <==> News(was, init, name, text, i) {
      NewsStay(was, init, e, name, text, i);
    }
  }

  lemma NewsStay<O>(was: seq<Entry<O>>, init: seq<Entry<O>>, e: Entry<O>, name: string, text: Text<O>, i: nat)
    requires i < |init|
    ensures News(was, init + [e], name, text, i) <==> News(was, init, name, text, i)
  {
    var more := init + [e];
    assert forall j :: 0 <= j <= i ==> more[j] == init[j];
  }

  lemma NewsLast<O>(files: Files<O>, init: seq<Entry<O>>, e: Entry<O>, name: string, text: Text<O>)
    requires AllDistinct(files)
    ensures var before := FileOf(SavedAll(files, init, text), name);
            FileOf(SavedAll(files, init + [e], text), name) ==
            if News(FileOf(files, name), init + [e], name, text, |init|) then before + [e] else before
  {
    var more := init + [e];
    assert more[..|init|] == init && forall j :: 0 <= j < |init| ==> more[j] == init[j];
    SavedExactly(files, init, text);
    var saved := SavedAll(files, init, text);
    assert HasHash(saved, name, e.hash) <==>
           HasHash(files, name, e.hash) ||
           exists j :: 0 <= j < |init| && For(init[j], name, text) && init[j].hash == e.hash;
  }

  // ----- the chunks --------------------------------------------------------

  /** Chunk k holds lines 1000 k up to 1000 k + 999, as far as there are lines. */
  lemma {:induction false} ChunksExactly(lines: seq<string>, k: nat)
    requires 1000 * k < |lines|
    ensures k < |Chunks(lines)| && 1000 * |Chunks(lines)| < |lines| + 1000
    ensures Chunks(lines)[k] == lines[1000 * k..if 1000 * k + 1000 <= |lines| then 1000 * k + 1000 else |lines|]
    decreases |lines|
  {
    if |lines| >= 1000 {
      var rest := lines[1000..];
      if rest != [] { ChunksExactly(rest, if k > 0 then k - 1 else 0); }
      assert Chunks(lines) == [lines[..1000]] + Chunks(rest);
    }
  }

  /** The chunks are scanned and saved one after the other, the first one first. */
  function SaveChunks<O>(files: Files<O>, chunks: seq<seq<string>>, text: Text<O>): Files<O>
    decreases chunks
  {
    if chunks == [] then files
    else SaveChunks(SavedAll(files, Extracted(chunks[0], text), text), chunks[1..], text)
  }

  lemma {:induction false} ProcessedInTurn<O>(files: Files<O>, lines: seq<string>, text: Text<O>)
    ensures Processed(files, lines, text) == SaveChunks(files, Chunks(lines), text)
    decreases |lines|
  {
    if |lines| >= 1000 {
      ProcessedInTurn(SavedAll(files, Extracted(lines[..1000], text), text), lines[1000..], text);
      assert ([lines[..1000]] + Chunks(lines[1000..]))[1..] == Chunks(lines[1000..]);
    }
  }
}
