/** `extract_code_blocks` as a whole: split the text into lines, scan them,
    stop on a length mismatch between the two output lists, otherwise announce
    the number of files and write each (filename, code) pair.

    `Run` takes the two line matchers as parameters; `ExtractCodeBlocks` fixes
    them to the program's two patterns. */
module Extractor {
  import opened Options
  import opened Text
  import opened Patterns
  import opened Scanner
  import opened Writer

  /** One message of the log console, in emission order. */
  datatype Entry =
    | Scanned(event: Event)             // a message of the scan loop
    | Mismatch                          // "Error: Mismatch between the number of filenames and code blocks."
    | ProcessingTotal(total: nat)       // "Processing N files..."
    | Wrote(write: WriteEvent)          // a message of the write loop

  datatype Report = Report(files: Files, log: seq<Entry>)

  function ScanEntries(log: seq<Event>): (r: seq<Entry>)
    ensures |r| == |log| && forall i :: 0 <= i < |log| ==> r[i] == Scanned(log[i])
  {
    seq(|log|, i requires 0 <= i < |log| => Scanned(log[i]))
  }

  function WriteEntries(log: seq<WriteEvent>): (r: seq<Entry>)
    ensures |r| == |log| && forall i :: 0 <= i < |log| ==> r[i] == Wrote(log[i])
  {
    seq(|log|, i requires 0 <= i < |log| => Wrote(log[i]))
  }

  /** `zip(filenames, code_blocks)` with the paths of each pair: as long as the
      shorter list. */
  function Jobs(outputDir: string, archiveRoot: string, names: seq<string>, blocks: seq<string>): (r: seq<Job>)
    ensures |r| == if |names| <= |blocks| then |names| else |blocks|
    ensures forall i :: 0 <= i < |r| ==> r[i].name == names[i] && r[i].code == blocks[i]
  {
    var n := if |names| <= |blocks| then |names| else |blocks|;
    seq(n, i requires 0 <= i < n => Plan(outputDir, archiveRoot, names[i], blocks[i]))
  }

  /** The function body with the line matchers as parameters. `ask(i)` answers
      "Overwrite?" for the i-th file and `io(i)` says how its write ends. */
  function Run(marker: Matcher, fence: Matcher, text: string, outputDir: string, archiveRoot: string,
               files: Files, ask: nat -> bool, io: nat -> WriteResult): (r: Report)
    ensures Mismatch !in r.log
  {
    var lines := Split(text, '\n');
    var s := Scan(marker, fence, lines);
    if |s.filenames| != |s.blocks| then
      assert false;
      Report(files, ScanEntries(s.log) + [Mismatch])
    else
      var jobs := Jobs(outputDir, archiveRoot, s.filenames, s.blocks);
      var w := WriteAll(files, outputDir, jobs, |s.filenames|, ask, io);
      Report(w.files, ScanEntries(s.log) + [ProcessingTotal(|s.filenames|)] + WriteEntries(w.log))
  }

  /** The log is the scan's messages, then "Processing N files..." with N the
      number of pairs the reference scan yields, then the write loop's
      messages. */
  lemma RunLog(marker: Matcher, fence: Matcher, text: string, outputDir: string, archiveRoot: string,
               files: Files, ask: nat -> bool, io: nat -> WriteResult)
    ensures var r := Run(marker, fence, text, outputDir, archiveRoot, files, ask, io);
            var s := Scan(marker, fence, Split(text, '\n'));
            var k := |s.log|;
            && |r.log| > k
            && (forall i :: 0 <= i < k ==> r.log[i] == Scanned(s.log[i]))
            && r.log[k] == ProcessingTotal(|RefNames(marker, fence, Split(text, '\n'))|)
            && (forall i :: k < i < |r.log| ==> r.log[i].Wrote?)
  {
    ScanMatchesReference(marker, fence, Split(text, '\n'));
  }

  /** The files change only at the output and archive paths of the extracted
      pairs. */
  lemma RunFrame(marker: Matcher, fence: Matcher, text: string, outputDir: string, archiveRoot: string,
                 files: Files, ask: nat -> bool, io: nat -> WriteResult)
    ensures var s := Scan(marker, fence, Split(text, '\n'));
            SameExcept(files, Run(marker, fence, text, outputDir, archiveRoot, files, ask, io).files,
                       Touched(Jobs(outputDir, archiveRoot, s.filenames, s.blocks)))
  {
    var s := Scan(marker, fence, Split(text, '\n'));
    WriteAllFrame(files, outputDir, Jobs(outputDir, archiveRoot, s.filenames, s.blocks), |s.filenames|, ask, io);
  }

  /** No line of a split text matches the fence pattern, since each would need
      a newline. */
  lemma NoFenceInAnyLine(text: string)
    ensures var lines := Split(text, '\n');
            forall t :: 0 <= t < |lines| ==> FenceSearch(lines[t]) == None
  {
    var lines := Split(text, '\n');
    forall t | 0 <= t < |lines| ensures FenceSearch(lines[t]) == None {
      NoNewlineNoFence(lines[t]);
    }
  }

  /** With the program's patterns the scan yields no pair, whatever the text. */
  lemma ScanYieldsNothing(text: string)
    ensures Scan(MarkerSearch, FenceSearch, Split(text, '\n')).filenames == []
    ensures Scan(MarkerSearch, FenceSearch, Split(text, '\n')).blocks == []
  {
    NoFenceInAnyLine(text);
    NoFenceNoPairs(MarkerSearch, FenceSearch, Split(text, '\n'));
  }

  /** The program's `extract_code_blocks`. As written it writes nothing for any
      text: the files are left as they were, and the log is the scan's
      messages followed by "Processing 0 files...". */
  function ExtractCodeBlocks(text: string, outputDir: string, archiveRoot: string,
                             files: Files, ask: nat -> bool, io: nat -> WriteResult): (r: Report)
    ensures r.files == files
    ensures r.log == ScanEntries(Scan(MarkerSearch, FenceSearch, Split(text, '\n')).log) + [ProcessingTotal(0)]
  {
    ScanYieldsNothing(text);
    var s := Scan(MarkerSearch, FenceSearch, Split(text, '\n'));
    assert Jobs(outputDir, archiveRoot, s.filenames, s.blocks) == [];
    assert WriteAll(files, outputDir, [], 0, ask, io) == Outcome(files, []);
    Run(MarkerSearch, FenceSearch, text, outputDir, archiveRoot, files, ask, io)
  }
}
