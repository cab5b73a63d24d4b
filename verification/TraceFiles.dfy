// Whole trace files: the generator's lines, the parser object that reads a file line by line,
// and the round trip between the two.
module TraceFiles {
  import opened MachineIntegers
  import opened TraceFormat
  import opened TraceForms
  import opened TraceJson

  datatype Format = Simple | Extended | Json

  // ---------- Lines of a file ----------

  function LineLength(text: string): (n: nat)
    ensures n <= |text| && (forall k :: 0 <= k < n ==> text[k] != '\n') && (n < |text| ==> text[n] == '\n')
  {
    if text == "" || text[0] == '\n' then 0 else 1 + LineLength(text[1..])
  }

  function FirstLine(text: string): string { text[..LineLength(text)] }

  function LaterLines(text: string): (rest: string)
    ensures text != "" ==> |rest| < |text|
  {
    if LineLength(text) < |text| then text[LineLength(text) + 1..] else ""
  }

  lemma {:induction false} LineEnds(line: string, rest: string)
    requires '\n' !in line
    ensures FirstLine(line + "\n" + rest) == line && LaterLines(line + "\n" + rest) == rest
  {
    var text := line + "\n" + rest;
    var n := LineLength(text);
    assert forall k :: 0 <= k < |line| ==> text[k] == line[k] && line[k] != '\n';
    assert text[|line|] == '\n';
  }

  // ---------- What a file means ----------

  predicate Skipped(line: string) { line == "" || line[0] == '#' }

  function Meaning(line: string, format: Format): Result<Access> {
    if Skipped(line) then Err(UnknownError)
    else if format == Json then JsonMeaning(line)
    else LineMeaning(line)
  }

  lemma {:induction false} MeaningCases(line: string, format: Format)
    ensures Skipped(line) ==> Meaning(line, format).Err?
    ensures !Skipped(line) ==> Meaning(line, format) == if format == Json then JsonMeaning(line) else LineMeaning(line)
  {
  }

  // The accesses of a file, with the lines that do not parse passed over.
  function Accesses(text: string, format: Format): seq<Access>
    decreases |text|
  {
    if text == "" then []
    else
      var meaning := Meaning(FirstLine(text), format);
      (if meaning.Ok? then [meaning.value] else []) + Accesses(LaterLines(text), format)
  }

  datatype Step = Step(access: Option<Access>, unread: string, lines: nat)

  // The next access of a file, what is then left to read, and the number of lines read for it.
  function Next(text: string, format: Format): (step: Step)
    ensures if step.access.Some? then |step.unread| < |text| else step.unread == ""
    decreases |text|
  {
    if text == "" then Step(None, "", 0)
    else
      var meaning := Meaning(FirstLine(text), format);
      if meaning.Ok? then Step(Some(meaning.value), LaterLines(text), 1)
      else var later := Next(LaterLines(text), format); later.(lines := later.lines + 1)
  }

  lemma {:induction false} NextUnfolds(text: string, format: Format)
    ensures var step, meaning, later := Next(text, format), Meaning(FirstLine(text), format), Next(LaterLines(text), format);
      && (text == "" ==> step == Step(None, "", 0))
      && (text != "" && meaning.Ok? ==> step == Step(Some(meaning.value), LaterLines(text), 1))
      && (text != "" && meaning.Err? ==>
            step.access == later.access && step.unread == later.unread && step.lines == later.lines + 1)
  {
  }

  // The rest of a reading: an access already read, and with it those still to read.
  function Pending(access: Option<Access>, unread: string, format: Format): seq<Access> {
    if access.Some? then [access.value] + Accesses(unread, format) else []
  }

  lemma {:induction false} PendingMoves(accesses: seq<Access>, access: Option<Access>, unread: string, format: Format)
    requires access.Some?
    ensures accesses + Pending(access, unread, format) == accesses + [access.value] + Accesses(unread, format)
  {
  }

  lemma {:induction false} NothingPending(unread: string, format: Format)
    ensures Pending(None, unread, format) == []
  {
  }

  lemma {:induction false} AccessesByNext(text: string, format: Format)
    ensures Accesses(text, format) == Pending(Next(text, format).access, Next(text, format).unread, format)
    decreases |text|
  {
    if text != "" && Meaning(FirstLine(text), format).Err? {
      AccessesByNext(LaterLines(text), format);
    }
  }

  function WriteCount(accesses: seq<Access>): (n: nat)
    ensures n <= |accesses|
  {
    if accesses == [] then 0
    else WriteCount(accesses[..|accesses| - 1]) + if accesses[|accesses| - 1].isWrite then 1 else 0
  }

  lemma {:induction false} WritesSnoc(accesses: seq<Access>, a: Access)
    ensures WriteCount(accesses + [a]) == WriteCount(accesses) + if a.isWrite then 1 else 0
  {
    assert (accesses + [a])[..|accesses + [a]| - 1] == accesses;
  }

  // The third word counts even inside a comment.
  predicate HasThreeWords(line: string) {
    NextWord(line).0 != "" && NextWord(NextWord(line).1).0 != "" && NextWord(NextWord(NextWord(line).1).1).0 != ""
  }

  // The format guessed from the first ten lines that are neither empty nor comments.
  function Detected(text: string, checked: nat): Format
    decreases |text|
  {
    if text == "" || checked >= 10 then Simple
    else
      var line := FirstLine(text);
      if Skipped(line) then Detected(LaterLines(text), checked)
      else if line[0] == '{' then Json
      else if HasThreeWords(line) then Extended
      else Detected(LaterLines(text), checked + 1)
  }

  // ---------- Files made of written lines ----------

  // A line without an access, or an access as it is written and what follows it on its line.
  datatype Item = Noise(line: string) | Entry(access: Access, writing: Writing, comment: string)

  // The text of an entry spells its access; it stays on one line and does not look like the
  // structured format.
  ghost predicate Harmless(item: Item) {
    match item
    case Noise(line) => Trailing(line) && '\n' !in line
    case Entry(access, writing, comment) =>
      && Writes(writing, access) && LineText(writing)[..1] != "{" && Trailing(comment)
      && '\n' !in LineText(writing) && '\n' !in comment
  }

  ghost predicate AllHarmless(items: seq<Item>) {
    forall k :: 0 <= k < |items| ==> Harmless(items[k])
  }

  function LineOf(item: Item): string {
    match item
    case Noise(line) => line
    case Entry(_, writing, comment) => LineText(writing) + comment
  }

  function Text(items: seq<Item>): string {
    if items == [] then "" else LineOf(items[0]) + "\n" + Text(items[1..])
  }

  function Listed(items: seq<Item>): seq<Access> {
    if items == [] then []
    else (if items[0].Entry? then [items[0].access] else []) + Listed(items[1..])
  }

  function PrintedItem(a: Access): Item { Entry(a, PrintedWriting(a), "") }

  function Plain(accesses: seq<Access>): (items: seq<Item>)
    ensures |items| == |accesses| && forall k :: 0 <= k < |items| ==> items[k] == PrintedItem(accesses[k])
  {
    seq(|accesses|, k requires 0 <= k < |accesses| => PrintedItem(accesses[k]))
  }

  // The accesses of the entries that are not refused, their fields kept to 32 bits.
  ghost function ReadBack(items: seq<Item>): (r: seq<Access>)
    ensures |r| <= |Listed(items)|
  {
    if items == [] then [] else
    var item := items[0];
    (if item.Entry? && !Refused(item.writing.address, item.access.address) then [Narrowed(item.access)] else [])
    + ReadBack(items[1..])
  }

  lemma {:induction false} NoiseIsPassedOver(line: string, format: Format)
    requires Trailing(line)
    ensures Meaning(line, format).Err? && (line != "" ==> line[0] != '{')
  {
    TrimSpaces("", BeforeHash(line));
    assert "" + BeforeHash(line) == BeforeHash(line);
    if line != "" && line[0] != '#' {
      assert BeforeHash(line)[0] == line[0];
      assert After(Some(line), "{") == None;
    }
  }

  // The lines themselves: one line, its access if it has one, and no sign of the structured format.
  lemma {:induction false} ItemLine(item: Item, format: Format)
    requires Harmless(item) && format != Json
    ensures '\n' !in LineOf(item) && (LineOf(item) != "" ==> LineOf(item)[0] != '{')
    ensures item.Noise? ==> Meaning(LineOf(item), format).Err?
    ensures item.Entry? ==> !Skipped(LineOf(item))
    ensures item.Entry? ==>
      var refused := Refused(item.writing.address, item.access.address);
      Meaning(LineOf(item), format) == if refused then Err(InvalidAddressFormat) else Ok(Narrowed(item.access))
  {
    match item
    case Noise(line) => NoiseIsPassedOver(line, format);
    case Entry(access, writing, comment) =>
      hide Writes, LineText, LineMeaning, Refused;
      TextStarts(writing, access);
      assert LineOf(item)[0] == LineText(writing)[0];
      WrittenReads(writing, access, comment);
  }

  // A file of written accesses, with white space and comments anywhere, reads as its accesses.
  lemma {:induction false} FileRoundTrip(items: seq<Item>, format: Format)
    requires AllHarmless(items) && format != Json
    ensures Accesses(Text(items), format) == ReadBack(items)
  {
    if items != [] {
      ItemLine(items[0], format);
      FileRoundTrip(items[1..], format);
      AccessesCons(items, format);
      hide LineOf, Meaning, Accesses, Harmless, Text;
    }
  }

  lemma {:induction false} ReadBackIff(items: seq<Item>)
    ensures ReadBack(items) == Listed(items) <==> forall k :: 0 <= k < |Listed(items)| ==> Fits(Listed(items)[k])
  {
    if items != [] {
      ReadBackIff(items[1..]);
      var rest, read := Listed(items[1..]), ReadBack(items[1..]);
      if items[0].Entry? {
        var a := items[0].access;
        assert Listed(items) == [a] + rest;
        HeadAndTail(a, rest);
        if Refused(items[0].writing.address, a.address) {
          assert ReadBack(items) == read;
        } else {
          ConsIff(Narrowed(a), read, a, rest);
          assert ReadBack(items) == [Narrowed(a)] + read;
          assert Narrowed(a) == a <==> Fits(a);
        }
      } else {
        assert Listed(items) == rest && ReadBack(items) == read;
      }
    }
    hide ReadBack, Listed, Fits;
  }

  lemma {:induction false} ConsIff(a: Access, s: seq<Access>, b: Access, t: seq<Access>)
    ensures [a] + s == [b] + t <==> a == b && s == t
  {
    assert ([a] + s)[0] == a && ([b] + t)[0] == b && ([a] + s)[1..] == s && ([b] + t)[1..] == t;
  }

  lemma {:induction false} HeadAndTail(a: Access, rest: seq<Access>)
    ensures var list := [a] + rest;
      (forall k :: 0 <= k < |list| ==> Fits(list[k])) <==> Fits(a) && forall k :: 0 <= k < |rest| ==> Fits(rest[k])
  {
    var list := [a] + rest;
    assert list[0] == a;
    assert forall k :: 0 <= k < |rest| ==> rest[k] == list[k + 1];
    hide Fits;
  }

  lemma {:induction false} AccessesCons(items: seq<Item>, format: Format)
    requires items != [] && '\n' !in LineOf(items[0])
    ensures Accesses(Text(items), format)
         == (var m := Meaning(LineOf(items[0]), format); if m.Ok? then [m.value] else []) + Accesses(Text(items[1..]), format)
  {
    LineEnds(LineOf(items[0]), Text(items[1..]));
    assert Text(items) != "";
    hide Meaning, LineOf;
  }

  // The parser never takes such a file for the structured format, whatever its first ten lines are.
  lemma {:induction false} NeverDetectedAsJson(items: seq<Item>, checked: nat)
    requires AllHarmless(items)
    ensures Detected(Text(items), checked) != Json
  {
    if items != [] && checked < 10 {
      ItemLine(items[0], Simple);
      LineEnds(LineOf(items[0]), Text(items[1..]));
      NeverDetectedAsJson(items[1..], checked);
      NeverDetectedAsJson(items[1..], checked + 1);
    }
  }

  // So such a file comes back as the list it was written from exactly when the list fits 32 bits.
  lemma {:induction false} TraceRoundTrip(items: seq<Item>)
    requires AllHarmless(items)
    ensures Accesses(Text(items), Detected(Text(items), 0)) == Listed(items)
       <==> forall k :: 0 <= k < |Listed(items)| ==> Fits(Listed(items)[k])
  {
    NeverDetectedAsJson(items, 0);
    FileRoundTrip(items, Detected(Text(items), 0));
    ReadBackIff(items);
    hide *;
  }

  lemma {:induction false} PlainListed(accesses: seq<Access>)
    ensures AllHarmless(Plain(accesses)) && Listed(Plain(accesses)) == accesses
  {
    if accesses != [] {
      assert Plain(accesses)[1..] == Plain(accesses[1..]);
      PlainListed(accesses[1..]);
      PrintedIsHarmless(accesses[0]);
    }
    hide Harmless, PrintedItem;
  }

  lemma {:induction false} PrintedIsHarmless(a: Access)
    ensures Harmless(PrintedItem(a)) && PrintedItem(a).access == a && LineOf(PrintedItem(a)) == Printed(a)
  {
    PrintedIsWritten(a);
    PrintedShape(a);
    hide Writes, Printed, LineText, PrintedWriting;
  }

  lemma {:induction false} AccessesFit(text: string, format: Format)
    ensures forall k :: 0 <= k < |Accesses(text, format)| ==> Fits(Accesses(text, format)[k])
    decreases |text|
  {
    if text != "" {
      MeaningFits(FirstLine(text));
      AccessesFit(LaterLines(text), format);
    }
  }

  // Printing what any file at all was read as, and reading that again, changes nothing.
  lemma {:induction false} RereadingIsStable(text: string, format: Format)
    ensures var again := Text(Plain(Accesses(text, format)));
            Accesses(again, Detected(again, 0)) == Accesses(text, format)
  {
    AccessesFit(text, format);
    PlainListed(Accesses(text, format));
    TraceRoundTrip(Plain(Accesses(text, format)));
  }

  // ---------- The generator ----------

  lemma {:induction false} TextSnoc(items: seq<Item>, item: Item)
    ensures Text(items + [item]) == Text(items) + LineOf(item) + "\n"
  {
    if items == [] {
      assert [item][1..] == [];
    } else {
      assert (items + [item])[1..] == items[1..] + [item];
      TextSnoc(items[1..], item);
    }
  }

  // The accesses that the random choices come to; the choices are parameters.
  function Drawn(numProcessors: nat, draws: seq<(bool, nat, nat)>): (accesses: seq<Access>)
    ensures |accesses| == |draws|
    ensures forall i :: 0 <= i < |draws| ==>
      accesses[i] == Access(draws[i].0, draws[i].1, if numProcessors > 0 then Some(draws[i].2) else None)
  {
    seq(|draws|, i requires 0 <= i < |draws| =>
      Access(draws[i].0, draws[i].1, if numProcessors > 0 then Some(draws[i].2) else None))
  }

  lemma {:induction false} DrawnSnoc(numProcessors: nat, draws: seq<(bool, nat, nat)>, i: nat)
    requires i < |draws|
    ensures Text(Plain(Drawn(numProcessors, draws[..i + 1])))
         == Text(Plain(Drawn(numProcessors, draws[..i]))) + Printed(Drawn(numProcessors, draws)[i]) + "\n"
  {
    var before, a := Drawn(numProcessors, draws[..i]), Drawn(numProcessors, draws)[i];
    assert Plain(Drawn(numProcessors, draws[..i + 1])) == Plain(before) + [PrintedItem(a)];
    TextSnoc(Plain(before), PrintedItem(a));
    PrintedIsHarmless(a);
    hide PrintedItem, Printed, LineOf;
  }

  method GenerateTrace(numProcessors: nat, draws: seq<(bool, nat, nat)>) returns (file: string)
    ensures file == Text(Plain(Drawn(numProcessors, draws)))
  {
    file := "";
    assert Text(Plain(Drawn(numProcessors, draws[..0]))) == "";
    hide Text, Digits;
    var i := 0;
    while i < |draws|
      invariant 0 <= i <= |draws|
      invariant file == Text(Plain(Drawn(numProcessors, draws[..i])))
    {
      var (isWrite, address, processorId) := draws[i];
      var line := "";
      if numProcessors > 0 {
        line := "P" + Digits(processorId, 10) + " ";
      }
      line := line + (if isWrite then "w " else "r ") + "0x" + Digits(address, 16);
      DrawnSnoc(numProcessors, draws, i);
      file := file + line + "\n";
      i := i + 1;
    }
    assert draws[..i] == draws;
  }

  // ---------- The parser ----------

  method ParseAddress(addressStr: string) returns (address: Option<nat>)
    ensures address == AddressOf(addressStr)
  {
    var cleanAddr := "";
    var i := 0;
    while i < |addressStr|
      invariant 0 <= i <= |addressStr| && cleanAddr == NonSpace(addressStr[..i])
    {
      assert addressStr[..i + 1][..i] == addressStr[..i];
      if !IsSpace(addressStr[i]) { cleanAddr := cleanAddr + [addressStr[i]]; }
      i := i + 1;
    }
    assert addressStr[..i] == addressStr;
    if |cleanAddr| > 2 && cleanAddr[0] == '0' && (cleanAddr[1] == 'x' || cleanAddr[1] == 'X') {
      var scan := FromChars(cleanAddr[2..], 16);
      if scan.Number? && scan.length == |cleanAddr| - 2 { return Some(scan.value); }
    }
    var scan := FromChars(cleanAddr, 10);
    if scan.Number? { return Some(scan.value); }
    return None;
  }

  method ParseLine(line: string) returns (result: Result<Access>)
    ensures result == LineMeaning(line)
  {
    var lineStr := line;
    var commentPos := FindHash(line);
    if commentPos < |line| { lineStr := lineStr[..commentPos]; }
    assert lineStr == BeforeHash(line);
    while lineStr != "" && IsSpace(lineStr[|lineStr| - 1])
      invariant TrimRight(lineStr) == TrimRight(BeforeHash(line))
      decreases |lineStr|
    {
      lineStr := lineStr[..|lineStr| - 1];
    }
    if lineStr == "" { return Err(UnknownError); }
    var (token1, rest1) := NextWord(lineStr);
    if token1 == "" { return Err(UnknownError); }
    var (token2, rest2) := NextWord(rest1);
    if token2 == "" { return Err(UnknownError); }
    var (token3, rest3) := NextWord(rest2);
    var accessType, addressStr, coreId := token1, token2, None;
    if token3 != "" {
      coreId := CoreIdOf(token1);
      accessType, addressStr := token2, token3;
    }
    var isWrite := false;
    if accessType == "r" || accessType == "R" {
    } else if accessType == "w" || accessType == "W" {
      isWrite := true;
    } else {
      return Err(InvalidAccessType);
    }
    var address := ParseAddress(addressStr);
    if address.None? { return Err(InvalidAddressFormat); }
    return Ok(Access(isWrite, address.value, coreId));
  }

  class TraceParser {
    const file: Option<string>   // None when the file cannot be opened
    var unread: string
    var format: Format
    var totalAccesses: nat
    var readAccesses: nat
    var writeAccesses: nat
    var lineNumber: nat

    function Contents(): string { if file.Some? then file.value else "" }

    ghost predicate Valid() reads this {
      totalAccesses == readAccesses + writeAccesses && (file.None? ==> unread == "")
    }

    constructor (file: Option<string>)
      ensures Valid() && this.file == file && unread == Contents() && format == Detected(Contents(), 0)
      ensures totalAccesses == 0 && writeAccesses == 0 && lineNumber == 0
    {
      this.file := file;
      unread := if file.Some? then file.value else "";
      format := Simple;
      totalAccesses, readAccesses, writeAccesses, lineNumber := 0, 0, 0, 0;
      new;
      if file.Some? {
        format := DetectFormat();
        Reset();
      }
    }

    method Reset()
      requires Valid()
      modifies this
      ensures Valid() && unread == Contents() && format == old(format)
      ensures totalAccesses == old(totalAccesses) && writeAccesses == old(writeAccesses)
      ensures lineNumber == if file.Some? then 0 else old(lineNumber)
    {
      if file.Some? {
        unread := file.value;
        lineNumber := 0;
      }
    }

    method DetectFormat() returns (detected: Format)
      ensures detected == Detected(Contents(), 0)
    {
      detected := Simple;
      if file.None? { return; }
      var text := file.value;
      var linesChecked := 0;
      while text != "" && linesChecked < 10
        invariant Detected(text, linesChecked) == Detected(Contents(), 0)
        decreases |text|
      {
        var line := FirstLine(text);
        text := LaterLines(text);
        if line == "" || line[0] == '#' { continue; }
        if line[0] == '{' { return Json; }
        var (token1, rest1) := NextWord(line);
        var (token2, rest2) := NextWord(rest1);
        var (token3, rest3) := NextWord(rest2);
        if token1 != "" && token2 != "" && token3 != "" { return Extended; }
        linesChecked := linesChecked + 1;
      }
    }

    method GetNextAccess() returns (access: Option<Access>)
      requires Valid()
      modifies this
      ensures Valid() && format == old(format)
      ensures var step := Next(old(unread), format);
              access == step.access && unread == step.unread && lineNumber == old(lineNumber) + step.lines
      ensures totalAccesses == old(totalAccesses) + (if access.Some? then 1 else 0)
      ensures writeAccesses == old(writeAccesses) + (if access.Some? && access.value.isWrite then 1 else 0)
    {
      hide LineMeaning, JsonMeaning, FirstLine, LaterLines, Next, Meaning;
      if file.None? {
        NextUnfolds(unread, format);
        return None;
      }
      ghost var start := Next(unread, format);
      while unread != ""
        invariant Valid() && format == old(format) && file.Some? && lineNumber >= old(lineNumber)
        invariant start.access == Next(unread, format).access && start.unread == Next(unread, format).unread
        invariant start.lines == lineNumber - old(lineNumber) + Next(unread, format).lines
        invariant totalAccesses == old(totalAccesses) && writeAccesses == old(writeAccesses)
        decreases |unread|
      {
        NextUnfolds(unread, format);
        MeaningCases(FirstLine(unread), format);
        var line := FirstLine(unread);
        unread := LaterLines(unread);
        lineNumber := lineNumber + 1;
        if line == "" || line[0] == '#' { continue; }
        var result;
        if format == Json { result := JsonMeaning(line); } else { result := ParseLine(line); }
        if result.Ok? {
          totalAccesses := totalAccesses + 1;
          if result.value.isWrite {
            writeAccesses := writeAccesses + 1;
          } else {
            readAccesses := readAccesses + 1;
          }
          return Some(result.value);
        }
      }
      NextUnfolds(unread, format);
      return None;
    }

    // The counters run on over repeated calls; only the position starts anew.
    method ParseAll() returns (accesses: seq<Access>)
      requires Valid()
      modifies this
      ensures Valid() && format == old(format) && unread == ""
      ensures accesses == Accesses(Contents(), format)
      ensures totalAccesses == old(totalAccesses) + |accesses|
      ensures writeAccesses == old(writeAccesses) + WriteCount(accesses)
    {
      accesses := [];
      Reset();
      hide Accesses, Next, Detected, Pending, WriteCount;
      AccessesByNext(unread, format);
      var access := GetNextAccess();
      while access.Some?
        invariant Valid() && format == old(format)
        invariant Accesses(Contents(), format) == accesses + Pending(access, unread, format)
        invariant access.None? ==> unread == ""
        invariant totalAccesses == old(totalAccesses) + |accesses| + (if access.Some? then 1 else 0)
        invariant writeAccesses == old(writeAccesses) + WriteCount(accesses)
                                 + (if access.Some? && access.value.isWrite then 1 else 0)
        decreases access.Some?, |unread|
      {
        PendingMoves(accesses, access, unread, format);
        WritesSnoc(accesses, access.value);
        accesses := accesses + [access.value];
        AccessesByNext(unread, format);
        access := GetNextAccess();
      }
      NothingPending(unread, format);
    }
  }
}
