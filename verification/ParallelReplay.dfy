// Replaying a trace in chunks, each on a fresh cache, and adding up the counts.
module ParallelReplay {
  import opened MachineIntegers
  import opened TraceFormat
  import opened Recency
  import opened ColdRestart
  import CacheModel
  import opened CacheObject
  import opened LruTheorems
  import R = ReplacementPolicies
  import opened TraceFiles
  import opened TraceScan

  datatype Tally = Tally(totalAccesses: nat, hits: nat, misses: nat)

  function Plus(a: Tally, b: Tally): Tally {
    Tally(a.totalAccesses + b.totalAccesses, a.hits + b.hits, a.misses + b.misses)
  }

  function Reads(addresses: seq<U32>): (r: seq<CacheModel.Request>)
    ensures |r| == |addresses|
    ensures forall i :: 0 <= i < |r| ==> r[i] == CacheModel.Request(addresses[i], false)
  {
    seq(|addresses|, i requires 0 <= i < |addresses| => CacheModel.Request(addresses[i], false))
  }

  // What one fresh cache counts over `addresses`.
  function FreshTally(c: CacheModel.Config, addresses: seq<U32>): (t: Tally)
    requires CacheModel.ValidConfig(c)
    ensures t.totalAccesses == |addresses|
  {
    CacheModel.ColdShape(c);
    var stats := CacheModel.Serve(c, CacheModel.Cold(c), Reads(addresses)).stats;
    Tally(|addresses|, stats.hits, stats.misses)
  }

  function TallyAll(c: CacheModel.Config, chunks: seq<seq<U32>>): Tally
    requires CacheModel.ValidConfig(c)
  {
    if chunks == [] then Tally(0, 0, 0) else
    var n := |chunks| - 1;
    Plus(TallyAll(c, chunks[..n]), FreshTally(c, chunks[n]))
  }

  // ---------- Splitting the trace ----------

  lemma {:induction false} ConcatSnoc<T>(chunks: seq<seq<T>>, last: seq<T>)
    ensures Concat(chunks + [last]) == Concat(chunks) + last
  {
    if chunks == [] {
      assert [last][1..] == [];
      assert last + [] == last;
    } else {
      assert (chunks + [last])[1..] == chunks[1..] + [last];
      ConcatSnoc(chunks[1..], last);
    }
  }

  // The chunks in order are the trace; all but the last have exactly `chunkSize` entries
  // (one, when `chunkSize` is zero), and none is empty.
  ghost predicate IsPartition(addresses: seq<U32>, chunkSize: nat, chunks: seq<seq<U32>>) {
    var size := ChunkLength(chunkSize);
    && Concat(chunks) == addresses
    && (forall i :: 0 <= i < |chunks| ==> 0 < |chunks[i]| <= size)
    && (forall i :: 0 <= i < |chunks| - 1 ==> |chunks[i]| == size)
  }

  function ChunkLength(chunkSize: nat): (n: nat)
    ensures n > 0
  {
    if chunkSize == 0 then 1 else chunkSize
  }

  // That partition, chunk by chunk from the front.
  function Chunked(addresses: seq<U32>, chunkSize: nat): seq<seq<U32>> {
    if addresses == [] then []
    else if |addresses| <= ChunkLength(chunkSize) then [addresses]
    else [addresses[..ChunkLength(chunkSize)]] + Chunked(addresses[ChunkLength(chunkSize)..], chunkSize)
  }

  // It is the only one.
  lemma {:induction false} PartitionIsChunked(addresses: seq<U32>, chunkSize: nat, chunks: seq<seq<U32>>)
    requires IsPartition(addresses, chunkSize, chunks)
    ensures chunks == Chunked(addresses, chunkSize)
    decreases |chunks|
  {
    if |chunks| > 1 {
      var rest := chunks[1..];
      assert addresses[|chunks[0]|..] == Concat(rest);
      PartitionIsChunked(Concat(rest), chunkSize, rest);
      assert Concat(rest) != [] by { assert rest[0] <= Concat(rest); }
      assert addresses[..|chunks[0]|] == chunks[0];
    } else if |chunks| == 1 {
      assert chunks[1..] == [];
      assert addresses == chunks[0];
    }
  }

  // Reading the addresses of a file into chunks; None for a file that cannot be opened, where the
  // source throws.
  method PartitionTrace(file: Option<string>, chunkSize: nat) returns (chunks: Option<seq<seq<U32>>>)
    ensures chunks.Some? == file.Some?
    ensures file.Some? ==> IsPartition(Scanned(file.value), chunkSize, chunks.value)
    ensures file.Some? ==> chunks.value == Chunked(Scanned(file.value), chunkSize)
  {
    if file.None? { return None; }
    hide ScanLine, FirstLine, LaterLines, Scanned, Reading, IsPartition, Concat;
    var text, full, current: seq<U32> := file.value, [], [];
    NothingRead(Scanned(text), chunkSize);
    while text != ""
      invariant Reading(Scanned(file.value), full, current, chunkSize, Scanned(text))
      decreases |text|
    {
      ScannedUnfolds(text);
      var line := FirstLine(text);
      text := LaterLines(text);
      if line == "" || line[0] == '#' { continue; }
      var address := ScanLine(line);
      if address.Some? {
        ReadOne(Scanned(file.value), full, current, chunkSize, address.value, Scanned(text));
        current := current + [address.value];
        if |current| >= chunkSize {
          full := full + [current];
          current := [];
        }
      }
    }
    ScannedUnfolds(text);
    ReadAll(Scanned(file.value), full, current, chunkSize);
    if current != [] {
      full := full + [current];
    }
    PartitionIsChunked(Scanned(file.value), chunkSize, full);
    return Some(full);
  }

  // Part way through: full chunks, a chunk not yet full, and the addresses of the lines to come.
  ghost predicate Reading(all: seq<U32>, full: seq<seq<U32>>, current: seq<U32>, chunkSize: nat, later: seq<U32>) {
    && Concat(full) + current + later == all
    && (forall j :: 0 <= j < |full| ==> |full[j]| == ChunkLength(chunkSize))
    && |current| < ChunkLength(chunkSize)
  }

  lemma {:induction false} NothingRead(all: seq<U32>, chunkSize: nat)
    ensures Reading(all, [], [], chunkSize, all)
  {
  }

  lemma {:induction false} ReadOne(all: seq<U32>, full: seq<seq<U32>>, current: seq<U32>, chunkSize: nat, a: U32, later: seq<U32>)
    requires Reading(all, full, current, chunkSize, [a] + later)
    ensures if |current| + 1 >= chunkSize then Reading(all, full + [current + [a]], [], chunkSize, later)
            else Reading(all, full, current + [a], chunkSize, later)
  {
    ConcatSnoc(full, current + [a]);
    assert Concat(full) + current + ([a] + later) == Concat(full) + (current + [a]) + later;
    hide Concat;
  }

  lemma {:induction false} ReadAll(all: seq<U32>, full: seq<seq<U32>>, current: seq<U32>, chunkSize: nat)
    requires Reading(all, full, current, chunkSize, [])
    ensures IsPartition(all, chunkSize, if current == [] then full else full + [current])
  {
    ConcatSnoc(full, current);
    hide Concat;
  }

  lemma {:induction false} ScannedUnfolds(text: string)
    ensures text == "" ==> Scanned(text) == []
    ensures text != "" ==> var line := FirstLine(text);
      Scanned(text) == if !Skipped(line) && ScanLine(line).Some? then [ScanLine(line).value] + Scanned(LaterLines(text))
                       else Scanned(LaterLines(text))
  {
    hide ScanLine, FirstLine, LaterLines;
  }

  // ---------- One chunk, and all of them ----------

  method ProcessChunk(addresses: seq<U32>, config: CacheModel.Config) returns (result: Tally)
    requires CacheModel.ValidConfig(config)
    ensures result == FreshTally(config, addresses)
  {
    hide CacheModel.Access, CacheModel.Shape, CacheModel.Cold;
    CacheModel.ColdShape(config);
    result := Tally(0, 0, 0);
    var simulator := new Cache(config);
    CacheModel.ServeOne(config, CacheModel.Cold(config), CacheModel.Request(0, false));
    CacheModel.ColdCounts(config);
    for i := 0 to |addresses|
      invariant fresh(simulator.Repr) && simulator.Valid() && simulator.config == config
      invariant simulator.Value() == CacheModel.Serve(config, CacheModel.Cold(config), Reads(addresses[..i]))
      invariant result == Tally(i, simulator.Value().stats.hits, simulator.Value().stats.misses)
    {
      ghost var before := simulator.Value();
      CacheModel.AccessCounts(config, before, addresses[i], false);
      assert Reads(addresses[..i + 1]) == Reads(addresses[..i]) + [CacheModel.Request(addresses[i], false)];
      CacheModel.ServeSnoc(config, CacheModel.Cold(config), Reads(addresses[..i]), CacheModel.Request(addresses[i], false));
      var hit := simulator.Access(addresses[i], false, null);
      result := result.(totalAccesses := result.totalAccesses + 1);
      if hit {
        result := result.(hits := result.hits + 1);
      } else {
        result := result.(misses := result.misses + 1);
      }
    }
    assert addresses[..|addresses|] == addresses;
  }

  method ProcessTrace(file: Option<string>, config: CacheModel.Config, chunkSize: nat) returns (combined: Option<Tally>)
    requires CacheModel.ValidConfig(config)
    ensures combined == if file.Some? then Some(TallyAll(config, Chunked(Scanned(file.value), chunkSize))) else None
  {
    hide FreshTally, IsPartition, Chunked, Scanned;
    var chunks := PartitionTrace(file, chunkSize);
    if chunks.None? { return None; }
    var parts := chunks.value;
    var results: seq<Tally> := [];
    for i := 0 to |parts|
      invariant |results| == i && forall j :: 0 <= j < i ==> results[j] == FreshTally(config, parts[j])
    {
      var result := ProcessChunk(parts[i], config);
      results := results + [result];
    }
    var sum := Tally(0, 0, 0);
    for i := 0 to |results|
      invariant sum == TallyAll(config, parts[..i])
    {
      assert parts[..i + 1][..i] == parts[..i];
      sum := Plus(sum, results[i]);
    }
    assert parts[..|parts|] == parts;
    return Some(sum);
  }

  // ---------- What chunking costs ----------

  function BlockTrace(c: CacheModel.Config, addresses: seq<U32>): (r: seq<nat>)
    requires CacheModel.ValidConfig(c)
  {
    Blocks(c, Reads(addresses))
  }

  function BlockChunks(c: CacheModel.Config, chunks: seq<seq<U32>>): (r: seq<seq<nat>>)
    requires CacheModel.ValidConfig(c)
    ensures |r| == |chunks|
  {
    seq(|chunks|, i requires 0 <= i < |chunks| => BlockTrace(c, chunks[i]))
  }

  lemma {:induction false} BlocksOfConcat(c: CacheModel.Config, chunks: seq<seq<U32>>)
    requires CacheModel.ValidConfig(c)
    ensures Concat(BlockChunks(c, chunks)) == BlockTrace(c, Concat(chunks))
  {
    if chunks != [] {
      BlocksOfConcat(c, chunks[1..]);
      assert BlockChunks(c, chunks)[1..] == BlockChunks(c, chunks[1..]);
      assert BlockTrace(c, chunks[0] + Concat(chunks[1..]))
          == BlockTrace(c, chunks[0]) + BlockTrace(c, Concat(chunks[1..]));
    }
  }

  lemma {:induction false} ChunkedMissesSnoc(chunks: seq<seq<nat>>, last: seq<nat>, numSets: nat, ways: nat)
    requires numSets > 0
    ensures ChunkedMisses(chunks + [last], numSets, ways)
         == ChunkedMisses(chunks, numSets, ways) + Misses(ColdLists(numSets), last, ways)
  {
    if chunks == [] {
      assert [last][1..] == [];
    } else {
      assert (chunks + [last])[1..] == chunks[1..] + [last];
      ChunkedMissesSnoc(chunks[1..], last, numSets, ways);
    }
  }

  lemma {:induction false} FreshMisses(c: CacheModel.Config, addresses: seq<U32>)
    requires CacheModel.ValidConfig(c) && c.policy == R.LRU
    ensures FreshTally(c, addresses).misses == Misses(ColdLists(c.numSets), BlockTrace(c, addresses), c.ways)
    ensures FreshTally(c, addresses).hits + FreshTally(c, addresses).misses == |addresses|
  {
    hide CacheModel.Shape, CacheModel.Access, CacheModel.Cold;
    ServeRefines(c, Reads(addresses));
  }

  lemma {:induction false} TallyIsChunkedMisses(c: CacheModel.Config, chunks: seq<seq<U32>>)
    requires CacheModel.ValidConfig(c) && c.policy == R.LRU
    ensures TallyAll(c, chunks).misses == ChunkedMisses(BlockChunks(c, chunks), c.numSets, c.ways)
  {
    hide FreshTally, BlockTrace;
    if chunks != [] {
      var n := |chunks| - 1;
      TallyIsChunkedMisses(c, chunks[..n]);
      FreshMisses(c, chunks[n]);
      assert BlockChunks(c, chunks) == BlockChunks(c, chunks[..n]) + [BlockTrace(c, chunks[n])];
      ChunkedMissesSnoc(BlockChunks(c, chunks[..n]), BlockTrace(c, chunks[n]), c.numSets, c.ways);
    }
  }

  // Every access is one hit or one miss.
  lemma {:induction false} TallyBalances(c: CacheModel.Config, chunks: seq<seq<U32>>)
    requires CacheModel.ValidConfig(c) && c.policy == R.LRU
    ensures TallyAll(c, chunks).hits + TallyAll(c, chunks).misses == TallyAll(c, chunks).totalAccesses
  {
    hide FreshTally;
    if chunks != [] {
      var n := |chunks| - 1;
      TallyBalances(c, chunks[..n]);
      FreshMisses(c, chunks[n]);
    }
  }

  lemma {:induction false} TotalIsLength(c: CacheModel.Config, chunks: seq<seq<U32>>)
    requires CacheModel.ValidConfig(c)
    ensures TallyAll(c, chunks).totalAccesses == |Concat(chunks)|
  {
    hide FreshTally;
    if chunks != [] {
      var n := |chunks| - 1;
      TotalIsLength(c, chunks[..n]);
      assert chunks == chunks[..n] + [chunks[n]];
      ConcatSnoc(chunks[..n], chunks[n]);
    }
  }

  // Chunked replay of an LRU cache never misses less than one replay of the whole trace,
  // and misses at most a cache's capacity in blocks more for every chunk after the first.
  lemma {:induction false} ChunkedTallyBound(c: CacheModel.Config, addresses: seq<U32>, chunkSize: nat, chunks: seq<seq<U32>>)
    requires CacheModel.ValidConfig(c) && c.policy == R.LRU && IsPartition(addresses, chunkSize, chunks)
    ensures FreshTally(c, addresses).misses <= TallyAll(c, chunks).misses
    ensures chunks != [] ==>
      TallyAll(c, chunks).misses <= FreshTally(c, addresses).misses + (|chunks| - 1) * Capacity(c.numSets, c.ways)
    ensures TallyAll(c, chunks).hits + TallyAll(c, chunks).misses == |addresses|
  {
    hide FreshTally, TallyAll, BlockTrace, BlockChunks, Misses, ChunkedMisses, Capacity;
    TallyIsChunkedMisses(c, chunks);
    TallyBalances(c, chunks);
    TotalIsLength(c, chunks);
    BlocksOfConcat(c, chunks);
    FreshMisses(c, addresses);
    if chunks == [] {
      NothingToMiss(c);
    } else {
      ChunkedReplayBound(BlockChunks(c, chunks), c.numSets, c.ways);
    }
  }

  lemma {:induction false} NothingToMiss(c: CacheModel.Config)
    requires CacheModel.ValidConfig(c) && c.policy == R.LRU
    ensures FreshTally(c, []).misses == 0
  {
    FreshMisses(c, []);
    hide FreshTally;
  }
}
