/** Collecting radosgw-admin commands and their outputs from logs, without repeating an
    output (utility/rgw_command_extractor.py). Cleaning, matching, JSON reading and hashing
    are parameters. */
module LogScanner {
  import opened Options

  /** The text functions: a cleaned line, the command in it, the output of lines, its hash,
      and the subcommand that names the file. */
  datatype Text<!O> = Text(clean: string -> Option<string>, command: string -> Option<string>,
                           output: seq<string> -> O, hash: O -> string, subcommand: string -> Option<string>)

  datatype Item = Cmd(text: string) | Out(text: string)

  datatype Entry<+O> = Entry(command: string, output: O, hash: string)

  // ----- the recursive description -----------------------------------------

  /** The cleaned lines, each a command or a line of output. */
  function Items<O>(lines: seq<string>, text: Text<O>): seq<Item> {
    if lines == [] then []
    else
      var n := |lines| - 1;
      Items(lines[..n], text)
      + match text.clean(lines[n])
        case None => []
        case Some(line) =>
          if line == "" then [] else match text.command(line) case Some(c) => [Cmd(c)] case None => [Out(line)]
  }

  /** From the first command on. */
  function FromCommand(items: seq<Item>): (r: seq<Item>)
    ensures |r| <= |items| && (r != [] ==> r[0].Cmd?)
  {
    if items == [] || items[0].Cmd? then items else FromCommand(items[1..])
  }

  /** The output lines before the first command. */
  function Body(items: seq<Item>): seq<string> {
    if items == [] || items[0].Cmd? then [] else [items[0].text] + Body(items[1..])
  }

  datatype Segment = Segment(command: string, lines: seq<string>)

  /** Split at the commands; what comes before the first is dropped, and so is the last,
      which no further command closes. */
  function Segments(items: seq<Item>): seq<Segment>
    decreases |items|
  {
    var here := FromCommand(items);
    if here == [] then []
    else
      var rest := here[1..];
      if FromCommand(rest) == [] then [] else [Segment(here[0].text, Body(rest))] + Segments(FromCommand(rest))
  }

  /** The segment left open at the end. */
  function Open(items: seq<Item>): Option<Segment>
    decreases |items|
  {
    var here := FromCommand(items);
    if here == [] then None
    else
      var rest := here[1..];
      if FromCommand(rest) == [] then Some(Segment(here[0].text, Body(rest))) else Open(FromCommand(rest))
  }

  function EntryOf<O>(s: Segment, text: Text<O>): Entry<O> {
    var output := text.output(s.lines);
    Entry(s.command, output, text.hash(output))
  }

  function Hashes<O>(entries: seq<Entry<O>>): set<string> { set i | 0 <= i < |entries| :: entries[i].hash }

  /** The first of each hash. */
  function AddNew<O>(entries: seq<Entry<O>>, e: Entry<O>): seq<Entry<O>> {
    if e.hash in Hashes(entries) then entries else entries + [e]
  }

  predicate Counts(s: Segment) { s.command != "" && s.lines != [] }

  function Collected<O>(segments: seq<Segment>, text: Text<O>): seq<Entry<O>> {
    if segments == [] then []
    else
      var earlier := Collected(segments[..|segments| - 1], text);
      var s := segments[|segments| - 1];
      if Counts(s) then AddNew(earlier, EntryOf(s, text)) else earlier
  }

  function Extracted<O>(lines: seq<string>, text: Text<O>): seq<Entry<O>> {
    Collected(Segments(Items(lines, text)), text)
  }

  // ----- splitting two parts -----------------------------------------------

  lemma {:induction false} FromCommandOfTwo(a: seq<Item>, b: seq<Item>)
    ensures FromCommand(a + b) == if FromCommand(a) == [] then FromCommand(b) else FromCommand(a) + b
    ensures Body(a + b) == if FromCommand(a) == [] then Body(a) + Body(b) else Body(a)
  {
    if a == [] {
      assert a + b == b;
    } else if a[0].Out? {
      assert (a + b)[1..] == a[1..] + b;
      FromCommandOfTwo(a[1..], b);
    }
  }

  /** Cutting a log in two loses exactly the segment that is open at the cut, when the second
      part closes it. */
  lemma {:induction false} SegmentsOfTwo(a: seq<Item>, b: seq<Item>)
    ensures Segments(a + b) ==
            Segments(a)
            + (if Open(a).Some? && FromCommand(b) != []
               then [Segment(Open(a).value.command, Open(a).value.lines + Body(b))] else [])
            + Segments(b)
    decreases |a|
  {
    FromCommandOfTwo(a, b);
    var here := FromCommand(a);
    if here != [] {
      var rest := here[1..];
      assert (here + b)[1..] == rest + b;
      FromCommandOfTwo(rest, b);
      if FromCommand(rest) != [] { SegmentsOfTwo(FromCommand(rest), b); }
    }
  }

  lemma {:induction false} OpenOfTwo(a: seq<Item>, b: seq<Item>)
    ensures Open(a + b) ==
            if FromCommand(b) != [] then Open(b)
            else if Open(a).Some? then Some(Segment(Open(a).value.command, Open(a).value.lines + Body(b)))
            else None
    decreases |a|
  {
    FromCommandOfTwo(a, b);
    var here := FromCommand(a);
    if here != [] {
      var rest := here[1..];
      assert (here + b)[1..] == rest + b;
      FromCommandOfTwo(rest, b);
      if FromCommand(rest) != [] { OpenOfTwo(FromCommand(rest), b); }
    }
  }

  predicate DistinctHashes<O>(entries: seq<Entry<O>>) {
    forall i, j :: 0 <= i < j < |entries| ==> entries[i].hash != entries[j].hash
  }

  lemma AddNewKeeps<O>(entries: seq<Entry<O>>, e: Entry<O>)
    ensures Hashes(AddNew(entries, e)) == Hashes(entries) + {e.hash}
    ensures DistinctHashes(entries) ==> DistinctHashes(AddNew(entries, e))
  {
    if e.hash !in Hashes(entries) {
      var more := entries + [e];
      assert forall i :: 0 <= i < |entries| ==> more[i] == entries[i];
      assert more[|entries|] == e;
      forall h ensures h in Hashes(more) <==> h in Hashes(entries) + {e.hash} {
        if h in Hashes(entries) {
          var i :| 0 <= i < |entries| && entries[i].hash == h;
          assert more[i].hash == h;
        }
      }
    }
  }

  // ----- the one-pass scanner ----------------------------------------------

  /** The open segment, as the scanner's two variables hold it; before the first command the
      lines pile up without one. */
  ghost predicate Holds(items: seq<Item>, command: Option<string>, lines: seq<string>) {
    match Open(items)
    case None => command.None?
    case Some(s) => command == Some(s.command) && lines == s.lines
  }

  lemma OneMoreItem(items: seq<Item>, x: Item)
    ensures x.Out? ==> Segments(items + [x]) == Segments(items)
    ensures x.Out? ==> Open(items + [x]) == match Open(items)
                                            case None => None
                                            case Some(s) => Some(Segment(s.command, s.lines + [x.text]))
    ensures x.Cmd? ==> Segments(items + [x]) == Segments(items) + if Open(items).Some? then [Open(items).value] else []
    ensures x.Cmd? ==> Open(items + [x]) == Some(Segment(x.text, []))
  {
    SegmentsOfTwo(items, [x]);
    OpenOfTwo(items, [x]);
    assert [x][1..] == [] && Body([]) == [] && FromCommand([]) == [];
    assert Segments([x]) == [] && Body([x]) == if x.Out? then [x.text] else [];
    assert Open(items).Some? ==> Open(items).value.lines + [] == Open(items).value.lines;
  }

  lemma CollectedMore<O>(segments: seq<Segment>, s: Segment, text: Text<O>)
    ensures Collected(segments + [s], text) ==
            if Counts(s) then AddNew(Collected(segments, text), EntryOf(s, text)) else Collected(segments, text)
  {
    assert (segments + [s])[..|segments|] == segments;
  }

  lemma NextItem<O>(lines: seq<string>, i: nat, text: Text<O>)
    requires i < |lines|
    ensures var items, cleaned := Items(lines[..i], text), text.clean(lines[i]);
            Items(lines[..i + 1], text) ==
            if cleaned.None? || cleaned.value == "" then items
            else if text.command(cleaned.value).Some? then items + [Cmd(text.command(cleaned.value).value)]
            else items + [Out(cleaned.value)]
  {
    assert lines[..i + 1][..i] == lines[..i];
  }

  lemma AtCommand<O>(items: seq<Item>, command: Option<string>, lines: seq<string>, next: string, text: Text<O>)
    requires Holds(items, command, lines)
    ensures Holds(items + [Cmd(next)], Some(next), [])
    ensures var results := Collected(Segments(items), text);
            Collected(Segments(items + [Cmd(next)]), text) ==
            if command.Some? && command.value != "" && lines != []
            then AddNew(results, EntryOf(Segment(command.value, lines), text)) else results
  {
    OneMoreItem(items, Cmd(next));
    if command.Some? {
      CollectedMore(Segments(items), Segment(command.value, lines), text);
    } else {
      assert Segments(items) + [] == Segments(items);
    }
  }

  method Extract<O>(lines: seq<string>, text: Text<O>) returns (results: seq<Entry<O>>)
    ensures results == Extracted(lines, text)
  {
    results := [];
    var hashes: set<string> := {};
    var command: Option<string>, outputLines: seq<string> := None, [];
    for i := 0 to |lines|
      invariant hashes == Hashes(results)
      invariant results == Extracted(lines[..i], text)
      invariant Holds(Items(lines[..i], text), command, outputLines)
    {
      ghost var items := Items(lines[..i], text);
      NextItem(lines, i, text);
      var cleaned := text.clean(lines[i]);
      if cleaned.None? || cleaned.value == "" { continue; }
      var line := cleaned.value;
      var found := text.command(line);
      if found.Some? {
        AtCommand(items, command, outputLines, found.value, text);
        if command.Some? && command.value != "" && outputLines != [] {
          var output := text.output(outputLines);
          results, hashes := Append(results, hashes, Entry(command.value, output, text.hash(output)));
        }
        command, outputLines := found, [];
      } else {
        OneMoreItem(items, Out(line));
        outputLines := outputLines + [line];
      }
    }
    assert lines[..|lines|] == lines;
  }

  method Append<O>(results0: seq<Entry<O>>, hashes0: set<string>, e: Entry<O>)
    returns (results: seq<Entry<O>>, hashes: set<string>)
    requires hashes0 == Hashes(results0)
    ensures results == AddNew(results0, e) && hashes == Hashes(results)
  {
    results, hashes := results0, hashes0;
    AddNewKeeps(results0, e);
    if e.hash !in hashes {
      results := results + [e];
      hashes := hashes + {e.hash};
    }
  }

  // ----- what the result promises ------------------------------------------

  /** The hash is that of a closed segment with a command and output. */
  ghost predicate FromSegment<O>(h: string, segments: seq<Segment>, text: Text<O>) {
    exists i :: 0 <= i < |segments| && Counts(segments[i]) && EntryOf(segments[i], text).hash == h
  }

  /** Exactly one entry for each hash of a closed segment with output. */
  lemma {:induction false} CollectedExactly<O>(segments: seq<Segment>, text: Text<O>)
    ensures DistinctHashes(Collected(segments, text))
    ensures forall h :: h in Hashes(Collected(segments, text)) <==> FromSegment(h, segments, text)
  {
    if segments != [] {
      var n := |segments| - 1;
      var earlier, s := Collected(segments[..n], text), segments[n];
      CollectedExactly(segments[..n], text);
      AddNewKeeps(earlier, EntryOf(s, text));
      forall h ensures FromSegment(h, segments, text) <==>
                       FromSegment(h, segments[..n], text) || (Counts(s) && EntryOf(s, text).hash == h)
      {
        if FromSegment(h, segments[..n], text) {
          var i :| 0 <= i < n && Counts(segments[..n][i]) && EntryOf(segments[..n][i], text).hash == h;
          assert segments[i] == segments[..n][i];
        }
        if FromSegment(h, segments, text) {
          var i :| 0 <= i < |segments| && Counts(segments[i]) && EntryOf(segments[i], text).hash == h;
          if i < n { assert segments[i] == segments[..n][i]; }
        }
      }
    }
  }

  // ----- saving ------------------------------------------------------------

  type Files<+O> = map<string, seq<Entry<O>>>

  function FileOf<O>(files: Files<O>, name: string): seq<Entry<O>> { if name in files then files[name] else [] }

  /** save_to_remote: nothing without a subcommand, else the entry is added to its file if new. */
  function Saved<O>(files: Files<O>, e: Entry<O>, text: Text<O>): Files<O> {
    match text.subcommand(e.command)
    case None => files
    case Some(name) => files[name := AddNew(FileOf(files, name), e)]
  }

  function SavedAll<O>(files: Files<O>, entries: seq<Entry<O>>, text: Text<O>): Files<O> {
    if entries == [] then files
    else Saved(SavedAll(files, entries[..|entries| - 1], text), entries[|entries| - 1], text)
  }

  predicate AllDistinct<O>(files: Files<O>) { forall name <- files :: DistinctHashes(files[name]) }

  /** The hash is among those saved in the file. */
  predicate HasHash<O>(files: Files<O>, name: string, h: string) { h in Hashes(FileOf(files, name)) }

  ghost predicate Addressed<O>(entries: seq<Entry<O>>, name: string, h: string, text: Text<O>) {
    exists e <- entries :: text.subcommand(e.command) == Some(name) && e.hash == h
  }

  lemma SavedOne<O>(files: Files<O>, e: Entry<O>, text: Text<O>)
    requires AllDistinct(files)
    ensures AllDistinct(Saved(files, e, text))
    ensures forall name, h :: HasHash(Saved(files, e, text), name, h) <==>
                              HasHash(files, name, h) || (text.subcommand(e.command) == Some(name) && e.hash == h)
  {
    var name := text.subcommand(e.command);
    if name.Some? { AddNewKeeps(FileOf(files, name.value), e); }
  }

  /** A file then holds its old hashes and those of the entries for it, each once. */
  lemma {:induction false} SavedExactly<O>(files: Files<O>, entries: seq<Entry<O>>, text: Text<O>)
    requires AllDistinct(files)
    ensures AllDistinct(SavedAll(files, entries, text))
    ensures forall name, h :: HasHash(SavedAll(files, entries, text), name, h) <==>
                              HasHash(files, name, h) || Addressed(entries, name, h, text)
  {
    if entries != [] {
      var init, last := entries[..|entries| - 1], entries[|entries| - 1];
      SavedExactly(files, init, text);
      SavedOne(SavedAll(files, init, text), last, text);
      forall name, h
        ensures Addressed(entries, name, h, text) <==>
                Addressed(init, name, h, text) || (text.subcommand(last.command) == Some(name) && last.hash == h)
      {
        assert entries == init + [last];
      }
    }
  }

  /** Saving what is there already changes nothing. */
  lemma {:induction false} SavedAgain<O>(files: Files<O>, entries: seq<Entry<O>>, text: Text<O>)
    requires forall e <- entries :: text.subcommand(e.command).Some? ==>
               text.subcommand(e.command).value in files && HasHash(files, text.subcommand(e.command).value, e.hash)
    ensures SavedAll(files, entries, text) == files
  {
    if entries != [] { SavedAgain(files, entries[..|entries| - 1], text); }
  }

  lemma {:induction false} SavedHasFile<O>(files: Files<O>, entries: seq<Entry<O>>, text: Text<O>, e: Entry<O>)
    requires e in entries && text.subcommand(e.command).Some?
    ensures text.subcommand(e.command).value in SavedAll(files, entries, text)
  {
    var init, last := entries[..|entries| - 1], entries[|entries| - 1];
    assert entries == init + [last];
    if e in init { SavedHasFile(files, init, text, e); }
  }

  /** Saving twice is saving once. */
  lemma SavingTwice<O>(files: Files<O>, entries: seq<Entry<O>>, text: Text<O>)
    requires AllDistinct(files)
    ensures SavedAll(SavedAll(files, entries, text), entries, text) == SavedAll(files, entries, text)
  {
    var once := SavedAll(files, entries, text);
    SavedExactly(files, entries, text);
    forall e | e in entries && text.subcommand(e.command).Some?
      ensures text.subcommand(e.command).value in once && HasHash(once, text.subcommand(e.command).value, e.hash)
    {
      SavedHasFile(files, entries, text, e);
      assert Addressed(entries, text.subcommand(e.command).value, e.hash, text);
    }
    SavedAgain(once, entries, text);
  }

  /** The output directory: one file of entries for each subcommand. */
  class Directory<O> {
    var files: Files<O>

    method SaveToRemote(e: Entry<O>, text: Text<O>)
      modifies this
      ensures files == Saved(old(files), e, text)
    {
      var name := text.subcommand(e.command);
      if name.None? { return; }
      if name.value !in files { files := files[name.value := []]; }
      var outputs := files[name.value];
      var isNew := true;
      for i := 0 to |outputs|
        invariant isNew <==> forall j :: 0 <= j < i ==> outputs[j].hash != e.hash
      {
        if outputs[i].hash == e.hash { isNew := false; }
      }
      if isNew { files := files[name.value := outputs + [e]]; }
    }

    method SaveAll(entries: seq<Entry<O>>, text: Text<O>)
      modifies this
      ensures files == SavedAll(old(files), entries, text)
    {
      for i := 0 to |entries|
        invariant files == SavedAll(old(files), entries[..i], text)
      {
        assert entries[..i + 1][..i] == entries[..i];
        SaveToRemote(entries[i], text);
      }
      assert entries[..|entries|] == entries;
    }
  }

  // ----- a file, in chunks -------------------------------------------------

  const CHUNK: nat := 1000

  /** Each chunk of lines is scanned on its own. */
  function Processed<O>(files: Files<O>, lines: seq<string>, text: Text<O>): Files<O>
    decreases |lines|
  {
    if lines == [] then files
    else if |lines| < CHUNK then SavedAll(files, Extracted(lines, text), text)
    else Processed(SavedAll(files, Extracted(lines[..CHUNK], text), text), lines[CHUNK..], text)
  }

  lemma FullChunk<O>(files: Files<O>, chunk: seq<string>, rest: seq<string>, text: Text<O>)
    requires |chunk| == CHUNK
    ensures Processed(files, chunk + rest, text) ==
            Processed(SavedAll(files, Extracted(chunk, text), text), [] + rest, text)
  {
    assert (chunk + rest)[..CHUNK] == chunk && (chunk + rest)[CHUNK..] == rest && [] + rest == rest;
  }

  method ScanChunk<O>(chunk: seq<string>, text: Text<O>, directory: Directory<O>)
    modifies directory
    ensures directory.files == SavedAll(old(directory.files), Extracted(chunk, text), text)
  {
    var entries := Extract(chunk, text);
    directory.SaveAll(entries, text);
  }

  lemma NextLine(buffer: seq<string>, lines: seq<string>, i: nat)
    requires i < |lines|
    ensures buffer + lines[i..] == (buffer + [lines[i]]) + lines[i + 1..]
  {
  }

  /** The chunk is scanned once it is full. */
  method Flush<O>(buffer: seq<string>, ghost rest: seq<string>, text: Text<O>, directory: Directory<O>)
    returns (buffer': seq<string>)
    requires |buffer| <= CHUNK
    modifies directory
    ensures |buffer'| < CHUNK
    ensures Processed(directory.files, buffer' + rest, text) == Processed(old(directory.files), buffer + rest, text)
  {
    if |buffer| < CHUNK { return buffer; }
    FullChunk(directory.files, buffer, rest, text);
    ScanChunk(buffer, text, directory);
    buffer' := [];
  }

  method ProcessLogFile<O>(lines: seq<string>, text: Text<O>, directory: Directory<O>)
    modifies directory
    ensures directory.files == Processed(old(directory.files), lines, text)
  {
    var buffer: seq<string> := [];
    assert buffer + lines[0..] == lines;
    for i := 0 to |lines|
      invariant |buffer| < CHUNK
      invariant Processed(old(directory.files), lines, text) == Processed(directory.files, buffer + lines[i..], text)
    {
      NextLine(buffer, lines, i);
      buffer := Flush(buffer + [lines[i]], lines[i + 1..], text, directory);
    }
    assert buffer + lines[|lines|..] == buffer;
    if buffer != [] { ScanChunk(buffer, text, directory); }
  }

  lemma {:induction false} ItemsOfTwo<O>(a: seq<string>, b: seq<string>, text: Text<O>)
    ensures Items(a + b, text) == Items(a, text) + Items(b, text)
  {
    if b == [] {
      assert a + b == a;
    } else {
      assert (a + b)[..|a + b| - 1] == a + b[..|b| - 1];
      ItemsOfTwo(a, b[..|b| - 1], text);
    }
  }

  lemma TwoParts<O>(a: seq<string>, b: seq<string>, text: Text<O>)
    ensures var ia, ib := Items(a, text), Items(b, text);
            var spanning := if Open(ia).Some? && FromCommand(ib) != []
                            then [Segment(Open(ia).value.command, Open(ia).value.lines + Body(ib))] else [];
            Segments(Items(a + b, text)) == Segments(ia) + spanning + Segments(ib)
  {
    ItemsOfTwo(a, b, text);
    SegmentsOfTwo(Items(a, text), Items(b, text));
  }

  function Chunks(lines: seq<string>): (chunks: seq<seq<string>>)
    decreases |lines|
  {
    if lines == [] then [] else if |lines| < CHUNK then [lines] else [lines[..CHUNK]] + Chunks(lines[CHUNK..])
  }

  function Joined(chunks: seq<seq<string>>): seq<string> {
    if chunks == [] then [] else chunks[0] + Joined(chunks[1..])
  }

  lemma {:induction false} ChunksJoin(lines: seq<string>)
    ensures Joined(Chunks(lines)) == lines
    decreases |lines|
  {
    if lines == [] {
    } else if |lines| < CHUNK {
      assert [lines][1..] == [];
    } else {
      ChunksJoin(lines[CHUNK..]);
      assert ([lines[..CHUNK]] + Chunks(lines[CHUNK..]))[1..] == Chunks(lines[CHUNK..]);
    }
  }

  function ChunkSegments<O>(chunks: seq<seq<string>>, text: Text<O>): seq<Segment> {
    if chunks == [] then [] else Segments(Items(chunks[0], text)) + ChunkSegments(chunks[1..], text)
  }

  /** No segment that is open at the end of a chunk is closed later on. */
  predicate NothingSpans<O>(chunks: seq<seq<string>>, text: Text<O>) {
    chunks == []
    || ((Open(Items(chunks[0], text)).None? || FromCommand(Items(Joined(chunks[1..]), text)) == [])
        && NothingSpans(chunks[1..], text))
  }

  lemma {:induction false} ChunkSegmentsExactly<O>(chunks: seq<seq<string>>, text: Text<O>)
    ensures |ChunkSegments(chunks, text)| <= |Segments(Items(Joined(chunks), text))|
    ensures Segments(Items(Joined(chunks), text)) == ChunkSegments(chunks, text) <==> NothingSpans(chunks, text)
  {
    if chunks != [] {
      var first, rest := chunks[0], Joined(chunks[1..]);
      ChunkSegmentsExactly(chunks[1..], text);
      TwoParts(first, rest, text);
      var open, close := Open(Items(first, text)), FromCommand(Items(rest, text)) != [];
      var spanning := if open.Some? && close
                      then [Segment(open.value.command, open.value.lines + Body(Items(rest, text)))] else [];
      SameEnds(Segments(Items(first, text)), spanning, Segments(Items(rest, text)), ChunkSegments(chunks[1..], text));
    }
  }

  lemma SameEnds(a: seq<Segment>, mid: seq<Segment>, b: seq<Segment>, c: seq<Segment>)
    requires |c| <= |b|
    ensures a + mid + b == a + c <==> mid == [] && b == c
  {
    if mid == [] {
      assert a + mid + b == a + b;
      assert (a + b)[|a|..] == b && (a + c)[|a|..] == c;
    } else {
      assert |a + mid + b| > |a + c|;
    }
  }

  /** The chunks of a file give the segments of the whole exactly if none spans a cut; otherwise
      they give fewer. */
  lemma ChunksAgreeExactly<O>(lines: seq<string>, text: Text<O>)
    ensures var whole, parts := Segments(Items(lines, text)), ChunkSegments(Chunks(lines), text);
            && |parts| <= |whole|
            && (whole == parts <==> NothingSpans(Chunks(lines), text))
  {
    ChunksJoin(lines);
    ChunkSegmentsExactly(Chunks(lines), text);
  }

  ghost predicate AddressedInChunk<O>(chunks: seq<seq<string>>, name: string, h: string, text: Text<O>) {
    exists i :: 0 <= i < |chunks| && Addressed(Extracted(chunks[i], text), name, h, text)
  }

  /** Which hashes each file holds in the end, for any number of chunks: its old ones and those
      the scan of some chunk addressed to it, each once. */
  lemma {:induction false} ProcessedExactly<O>(files: Files<O>, lines: seq<string>, text: Text<O>)
    requires AllDistinct(files)
    ensures AllDistinct(Processed(files, lines, text))
    ensures forall name, h :: HasHash(Processed(files, lines, text), name, h) <==>
                              HasHash(files, name, h) || AddressedInChunk(Chunks(lines), name, h, text)
    decreases |lines|
  {
    if lines != [] {
      var first := if |lines| < CHUNK then lines else lines[..CHUNK];
      var rest := if |lines| < CHUNK then [] else lines[CHUNK..];
      var once := SavedAll(files, Extracted(first, text), text);
      SavedExactly(files, Extracted(first, text), text);
      ProcessedExactly(once, rest, text);
      assert Processed(files, lines, text) == Processed(once, rest, text);
      assert Chunks(lines) == [first] + Chunks(rest);
      forall name, h
        ensures AddressedInChunk(Chunks(lines), name, h, text) <==>
                Addressed(Extracted(first, text), name, h, text) || AddressedInChunk(Chunks(rest), name, h, text)
      {
        InFirstOrRest(first, Chunks(rest), name, h, text);
      }
    }
  }

  lemma InFirstOrRest<O>(first: seq<string>, rest: seq<seq<string>>, name: string, h: string, text: Text<O>)
    ensures AddressedInChunk([first] + rest, name, h, text) <==>
            Addressed(Extracted(first, text), name, h, text) || AddressedInChunk(rest, name, h, text)
  {
    var all := [first] + rest;
    assert all[0] == first;
    forall i | 0 <= i < |rest| ensures all[i + 1] == rest[i] {}
    if AddressedInChunk(all, name, h, text) {
      var i :| 0 <= i < |all| && Addressed(Extracted(all[i], text), name, h, text);
      if i > 0 { assert all[i] == rest[i - 1]; }
    }
  }

  // ----- a command that is lost --------------------------------------------

  /** a and b are commands, o is a line of output. */
  ghost predicate Reads<O>(text: Text<O>, a: string, o: string, b: string) {
    && a != "" && o != "" && b != ""
    && text.clean(a) == Some(a) && text.clean(o) == Some(o) && text.clean(b) == Some(b)
    && text.command(a) == Some(a) && text.command(o) == None && text.command(b) == Some(b)
  }

  lemma {:induction false} ItemsOfOutput<O>(text: Text<O>, a: string, o: string, b: string, n: nat)
    requires Reads(text, a, o, b)
    ensures var items := Items([a] + seq(n, i => o), text);
            Open(items) == Some(Segment(a, seq(n, i => o))) && Segments(items) == []
  {
    var lines := [a] + seq(n, i => o);
    assert lines[..|lines|] == lines;
    if n == 0 {
      assert lines == [a];
      NextItem(lines, 0, text);
      OneMoreItem([], Cmd(a));
      assert [] + [Cmd(a)] == [Cmd(a)];
    } else {
      ItemsOfOutput(text, a, o, b, n - 1);
      assert lines[..n] == [a] + seq(n - 1, i => o);
      NextItem(lines, n, text);
      OneMoreItem(Items(lines[..n], text), Out(o));
      assert seq(n - 1, i => o) + [o] == seq(n, i => o);
    }
  }

  /** A file of 1001 lines: a command, 999 lines of its output, and the next command. Nothing is
      saved of it, although the whole holds the first command with its output. */
  lemma ChunkLosesCommand<O>(text: Text<O>, a: string, o: string, b: string)
    requires Reads(text, a, o, b)
    ensures var lines := [a] + seq(999, i => o) + [b];
            && Processed(map[], lines, text) == map[]
            && Extracted(lines, text) == [EntryOf(Segment(a, seq(999, i => o)), text)]
  {
    var first, lines := [a] + seq(999, i => o), [a] + seq(999, i => o) + [b];
    ItemsOfOutput(text, a, o, b, 999);
    assert lines[..CHUNK] == first && lines[CHUNK..] == [b];
    assert [b] == [b] + seq(0, i => o);
    assert Reads(text, b, o, b);
    ItemsOfOutput(text, b, o, b, 0);
    assert Extracted(first, text) == [] && Extracted([b], text) == [];
    assert Processed(map[], [b], text) == map[];
    TwoParts(first, [b], text);
    var s := Segment(a, seq(999, i => o));
    assert [b][..0] == [] && Items([b], text) == [] + [Cmd(b)] == [Cmd(b)];
    assert s.lines + [] == s.lines;
    assert Segments(Items(lines, text)) == [] + [s] + [] == [s];
    assert [s] == [] + [s];
    CollectedMore([], s, text);
    assert s.lines[0] == o;
  }
}
