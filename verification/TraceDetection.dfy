// Which format the parser guesses for a file, how it counts lines, and what it makes of files in the
// structured format.
module TraceDetection {
  import opened MachineIntegers
  import opened TraceFormat
  import opened TraceForms
  import opened TraceJson
  import opened TraceFiles

  // ---------- The lines of a file ----------

  // The text cut at its line ends; a last line end starts no further line.
  function Lines(text: string): seq<string>
    decreases |text|
  {
    if text == "" then [] else [FirstLine(text)] + Lines(LaterLines(text))
  }

  function Joined(lines: seq<string>): string {
    if lines == [] then "" else lines[0] + "\n" + Joined(lines[1..])
  }

  lemma {:induction false} LinesOfJoined(lines: seq<string>)
    requires forall k :: 0 <= k < |lines| ==> '\n' !in lines[k]
    ensures Lines(Joined(lines)) == lines
  {
    if lines != [] {
      LineEnds(lines[0], Joined(lines[1..]));
      LinesOfJoined(lines[1..]);
      assert Joined(lines) != "";
    }
  }

  // The lines read for the next access and those still unread are together all the lines.
  lemma {:induction false} NextCountsLines(text: string, format: Format)
    ensures |Lines(text)| == Next(text, format).lines + |Lines(Next(text, format).unread)|
    decreases |text|
  {
    NextUnfolds(text, format);
    if text != "" && Meaning(FirstLine(text), format).Err? {
      NextCountsLines(LaterLines(text), format);
    }
    hide Next, Meaning, FirstLine, LaterLines;
  }

  // ---------- The guess ----------

  // The lines that are neither empty nor comments.
  function Relevant(lines: seq<string>): (r: seq<string>)
    ensures forall k :: 0 <= k < |r| ==> r[k] != ""
  {
    if lines == [] then [] else (if Skipped(lines[0]) then [] else [lines[0]]) + Relevant(lines[1..])
  }

  predicate Telling(line: string) { line != "" && (line[0] == '{' || HasThreeWords(line)) }

  // The first telling line.
  ghost predicate TellsAt(lines: seq<string>, k: nat) {
    k < |lines| && lines[k] != "" && Telling(lines[k]) && forall j :: 0 <= j < k ==> !Telling(lines[j])
  }

  // The first of ten relevant lines that opens a brace or has three words decides; Simple without one.
  ghost predicate Decides(lines: seq<string>, limit: nat, format: Format) {
    match format
    case Json => exists k: nat :: k < limit && TellsAt(lines, k) && lines[k][0] == '{'
    case Extended => exists k: nat :: k < limit && TellsAt(lines, k) && lines[k][0] != '{'
    case Simple => forall k :: 0 <= k < |lines| && k < limit ==> !Telling(lines[k])
  }

  lemma {:induction false} LaterDecides(line: string, lines: seq<string>, limit: nat, format: Format)
    requires limit > 0 && !Telling(line) && Decides(lines, limit - 1, format)
    ensures Decides([line] + lines, limit, format)
  {
    var all := [line] + lines;
    assert forall k :: 0 <= k < |lines| ==> all[k + 1] == lines[k];
    hide Telling;
    if format != Simple {
      var k: nat :| k < limit - 1 && TellsAt(lines, k) && (format == Json <==> lines[k][0] == '{');
      assert TellsAt(all, k + 1);
    }
  }

  lemma {:induction false} FirstDecides(line: string, lines: seq<string>, limit: nat)
    requires limit > 0 && Telling(line)
    ensures Decides([line] + lines, limit, if line[0] == '{' then Json else Extended)
  {
    assert TellsAt([line] + lines, 0);
  }

  lemma {:induction false} DetectedUnfolds(text: string, checked: nat)
    requires text != "" && checked < 10
    ensures var line, rest := FirstLine(text), LaterLines(text);
      Detected(text, checked)
        == if Skipped(line) then Detected(rest, checked)
           else if Telling(line) then (if line[0] == '{' then Json else Extended)
           else Detected(rest, checked + 1)
  {
    hide FirstLine, LaterLines, HasThreeWords;
  }

  lemma {:induction false} NothingDecides(text: string, checked: nat)
    requires text == "" || checked == 10
    ensures checked <= 10 ==> Decides(Relevant(Lines(text)), 10 - checked, Detected(text, checked))
  {
    if text == "" {
      assert Lines(text) == [];
    }
    hide Telling;
  }

  lemma {:induction false} DetectedFrom(text: string, checked: nat)
    requires checked <= 10
    ensures Decides(Relevant(Lines(text)), 10 - checked, Detected(text, checked))
    decreases |text|
  {
    if text == "" || checked == 10 {
      NothingDecides(text, checked);
      return;
    }
    var line, rest := FirstLine(text), LaterLines(text);
    DetectedUnfolds(text, checked);
    RelevantCons(line, Lines(rest));
    LinesUnfold(text);
    hide FirstLine, LaterLines, HasThreeWords, Relevant, Detected, Decides, Telling, Lines, Skipped;
    if Skipped(line) {
      DetectedFrom(rest, checked);
      assert [] + Relevant(Lines(rest)) == Relevant(Lines(rest));
    } else if Telling(line) {
      FirstDecides(line, Relevant(Lines(rest)), 10 - checked);
    } else {
      DetectedFrom(rest, checked + 1);
      LaterDecides(line, Relevant(Lines(rest)), 10 - checked, Detected(rest, checked + 1));
    }
  }

  lemma {:induction false} LinesUnfold(text: string)
    requires text != ""
    ensures Lines(text) == [FirstLine(text)] + Lines(LaterLines(text)) && |LaterLines(text)| < |text|
  {
    hide FirstLine, LaterLines;
  }

  lemma {:induction false} RelevantCons(line: string, lines: seq<string>)
    ensures Relevant([line] + lines) == (if Skipped(line) then [] else [line]) + Relevant(lines)
  {
    assert ([line] + lines)[1..] == lines;
  }

  lemma {:induction false} OneDecision(lines: seq<string>, limit: nat, f: Format, g: Format)
    requires Decides(lines, limit, f) && Decides(lines, limit, g)
    ensures f == g
  {
    hide Telling;
    if f != Simple && g != Simple {
      var j: nat :| j < limit && TellsAt(lines, j) && (f == Json <==> lines[j][0] == '{');
      var k: nat :| k < limit && TellsAt(lines, k) && (g == Json <==> lines[k][0] == '{');
      assert j == k;
    }
  }

  // The parser's guess is the format that so decides.
  lemma {:induction false} DetectedIff(text: string, format: Format)
    ensures Detected(text, 0) == format <==> Decides(Relevant(Lines(text)), 10, format)
  {
    DetectedFrom(text, 0);
    if Decides(Relevant(Lines(text)), 10, format) {
      OneDecision(Relevant(Lines(text)), 10, format, Detected(text, 0));
    }
    hide *;
  }

  // ---------- Generated files ----------

  // A printed line has three words if and only if it names a processor.
  lemma {:induction false} PrintedWordCount(a: Access)
    ensures HasThreeWords(Printed(a)) <==> a.coreId.Some?
  {
    var w := PrintedWriting(a);
    PrintedIsWritten(a);
    AddressWordReads(w.address, a.address);
    FirstWordReads(w, a);
    hide Digits, NextWord, IsWord, AddressOf, CoreIdOf, AddressWord, IdWord, ForeignWord, Spells;
    WordCount(w);
  }

  lemma {:induction false} WordCount(w: Writing)
    requires WellSpaced(w) && IsWord(w.kind) && IsWord(w.address)
    ensures HasThreeWords(LineText(w)) <==> w.first != ""
  {
    hide NextWord;
    if w.first == "" {
      NextWordIs(w.lead, w.kind, w.gap + (w.address + ""));
      NextWordIs(w.gap, w.address, "");
      NothingLeft();
    } else {
      NextWordIs(w.lead, w.first, w.firstGap + (w.kind + (w.gap + (w.address + ""))));
      NextWordIs(w.firstGap, w.kind, w.gap + (w.address + ""));
      NextWordIs(w.gap, w.address, "");
    }
  }

  ghost predicate NamesProcessor(accesses: seq<Access>, limit: nat) {
    exists k :: 0 <= k < |accesses| && k < limit && accesses[k].coreId.Some?
  }

  lemma {:induction false} NamesCons(accesses: seq<Access>, limit: nat)
    requires accesses != [] && limit > 0
    ensures NamesProcessor(accesses, limit) <==> accesses[0].coreId.Some? || NamesProcessor(accesses[1..], limit - 1)
  {
    var rest := accesses[1..];
    assert forall k :: 0 <= k < |rest| ==> rest[k] == accesses[k + 1];
    assert forall k :: 1 <= k < |accesses| ==> accesses[k] == rest[k - 1];
  }

  // A generated file is taken for the extended format when one of its first ten accesses names a
  // processor, and for the simple one otherwise.
  lemma {:induction false} GeneratedFormat(accesses: seq<Access>, checked: nat)
    requires checked <= 10
    ensures Detected(Text(Plain(accesses)), checked) == if NamesProcessor(accesses, 10 - checked) then Extended else Simple
  {
    hide Detected, Text, LineOf, PrintedItem, NamesProcessor, HasThreeWords;
    if accesses == [] || checked == 10 {
      NothingNamed(accesses, checked);
    } else {
      GeneratedFormat(accesses[1..], checked + 1);
      NamesCons(accesses, 10 - checked);
      assert Plain(accesses)[1..] == Plain(accesses[1..]);
      PrintedLineTells(accesses[0]);
      DetectedCons(Plain(accesses), checked);
    }
  }

  lemma {:induction false} NothingNamed(accesses: seq<Access>, checked: nat)
    requires accesses == [] || checked == 10
    ensures Detected(Text(Plain(accesses)), checked) == Simple && (checked <= 10 ==> !NamesProcessor(accesses, 10 - checked))
  {
  }

  lemma {:induction false} PrintedLineTells(a: Access)
    ensures var line := LineOf(PrintedItem(a));
            line != "" && line[0] !in "#{" && '\n' !in line && (HasThreeWords(line) <==> a.coreId.Some?)
  {
    PrintedWordCount(a);
    PrintedShape(a);
    PrintedIsHarmless(a);
    hide Printed, HasThreeWords, LineOf, Harmless, PrintedItem;
  }

  lemma {:induction false} DetectedCons(items: seq<Item>, checked: nat)
    requires items != [] && '\n' !in LineOf(items[0]) && LineOf(items[0]) != "" && LineOf(items[0])[0] !in "#{"
    requires checked < 10
    ensures Detected(Text(items), checked)
         == if HasThreeWords(LineOf(items[0])) then Extended else Detected(Text(items[1..]), checked + 1)
  {
    LineEnds(LineOf(items[0]), Text(items[1..]));
    assert Text(items) != "";
    hide HasThreeWords, LineOf, Text;
  }

  // ---------- Files in the structured format ----------

  datatype JsonLine = JsonLine(access: Access, writing: JsonWriting)

  ghost predicate Written(line: JsonLine) {
    JsonWrites(line.writing, line.access.isWrite, line.access.address) && '\n' !in JsonText(line.writing)
  }

  function JsonFile(lines: seq<JsonLine>): string {
    if lines == [] then "" else JsonText(lines[0].writing) + "\n" + JsonFile(lines[1..])
  }

  // The format keeps no processor.
  function Anonymous(lines: seq<JsonLine>): (accesses: seq<Access>)
    ensures |accesses| == |lines|
    ensures forall k :: 0 <= k < |lines| ==> accesses[k] == Narrowed(lines[k].access.(coreId := None))
  {
    seq(|lines|, k requires 0 <= k < |lines| => Narrowed(lines[k].access.(coreId := None)))
  }

  // A file of such lines is taken for the structured format, and reads as its accesses.
  lemma {:induction false} JsonFileRoundTrip(lines: seq<JsonLine>)
    requires forall k :: 0 <= k < |lines| ==> Written(lines[k])
    ensures Accesses(JsonFile(lines), Json) == Anonymous(lines)
    ensures lines != [] ==> Detected(JsonFile(lines), 0) == Json
  {
    if lines == [] {
      NoLines();
    } else {
      assert Written(lines[0]);
      JsonFileRoundTrip(lines[1..]);
      JsonLineFirst(lines[0], JsonFile(lines[1..]));
      AnonymousCons(lines);
    }
    hide JsonText, Written, Accesses, Detected, Narrowed, Anonymous;
  }

  lemma {:induction false} NoLines()
    ensures Accesses("", Json) == Anonymous([])
  {
  }

  lemma {:induction false} AnonymousCons(lines: seq<JsonLine>)
    requires lines != []
    ensures Anonymous(lines) == [Narrowed(lines[0].access.(coreId := None))] + Anonymous(lines[1..])
  {
    hide Narrowed;
  }

  lemma {:induction false} JsonLineFirst(line: JsonLine, rest: string)
    requires Written(line)
    ensures var text := JsonText(line.writing) + "\n" + rest;
      && Accesses(text, Json) == [Narrowed(line.access.(coreId := None))] + Accesses(rest, Json)
      && Detected(text, 0) == Json
  {
    JsonRoundTrip(line.writing, line.access.isWrite, line.access.address);
    TextIsBraced(line.writing);
    LineEnds(JsonText(line.writing), rest);
    hide JsonMeaning, JsonText, JsonWrites, FirstLine, LaterLines;
  }

  ghost predicate Unbraced(line: string) {
    line == "" || line[0] != '{' || line[|line| - 1] != '}'
  }

  // A file whose lines do not each open and close their braces, as the documented example of an
  // array over several lines, reads as nothing.
  lemma {:induction false} UnbracedFileIsEmpty(text: string)
    requires forall k :: 0 <= k < |Lines(text)| ==> Unbraced(Lines(text)[k])
    ensures Accesses(text, Json) == []
    decreases |text|
  {
    if text != "" {
      var rest := LaterLines(text);
      assert Lines(text)[0] == FirstLine(text);
      assert forall k :: 0 <= k < |Lines(rest)| ==> Lines(rest)[k] == Lines(text)[k + 1];
      UnbracedFileIsEmpty(rest);
      UnbracedLine(FirstLine(text));
      hide FirstLine, LaterLines, Unbraced, Meaning;
    }
  }

  lemma {:induction false} UnbracedLine(line: string)
    requires Unbraced(line)
    ensures Meaning(line, Json).Err?
  {
    UnbracedIsRefused(line);
    hide JsonMeaning;
  }
}
