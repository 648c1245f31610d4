/** The server's second compressor: the processor prepares the image, the encoder works on the memory they
    share, and the processor fetches the file. */
module HardwareCompress {
  import opened Alphabet
  import opened Trees
  import opened Bytes
  import opened CodeTables
  import opened Coding
  import opened FileFormat
  import opened Avalon
  import opened Limits
  import opened Compress
  import opened HardwareResult
  import opened HardwareFiles
  import opened Encoders
  import opened EncoderPath
  import opened EncoderResult
  import opened Entities
  import opened HardwareImage
  import H = Hardware

  /** The address space of the encoder: the shared memory, and zeros where there is none. */
  function Space(memory: seq<Byte>): (mem: Memory)
    requires |memory| <= SPACE
    ensures mem[..|memory|] == memory
  {
    memory + seq(SPACE - |memory|, _ => 0)
  }

  /** The data that the slave delivers. */
  method SlaveRead(memory: array<Byte>, bus: Bus, wait: bool, junk: Byte) returns (data: Byte)
    requires memory.Length <= SPACE
    ensures data == DataIn(Space(memory[..]), bus, wait, junk)
  {
    if bus.read && !wait {
      data := if bus.address < memory.Length then memory[bus.address] else 0;
    } else {
      data := junk;
    }
  }

  /** The write that the slave carries out. */
  method SlaveWrite(memory: array<Byte>, bus: Bus, wait: bool)
    requires memory.Length <= SPACE && (bus.write ==> bus.address < memory.Length)
    modifies memory
    ensures Space(memory[..]) == AfterCycle(Space(old(memory[..])), bus, wait)
  {
    if bus.write && !wait {
      memory[bus.address] := bus.data;
    }
  }

  /** One clock cycle of the encoder on the shared memory. */
  method OneCycle(memory: array<Byte>, entity: EncoderEntity, reset: bool, start: bool, c: MachineCycle,
                  ghost m: Machine)
    requires memory.Length <= SPACE && entity.Contents(Space(memory[..])) == m
    requires m.Typed() && CodeFits(m.text.w) && (m.Outputs().write ==> m.Outputs().address < memory.Length)
    modifies memory, entity.encoder, entity.tree, entity.text.handler, entity.text.reader, entity.text.writer,
             entity.text.writer.wipReg
    ensures entity.Contents(Space(memory[..])) == Tick(m, reset, start, c)
  {
    entity.OutputsAgree(m.Mem());
    var bus := entity.Outputs();
    var data := SlaveRead(memory, bus, c.bus.wait, c.bus.junk);
    entity.Edge(reset, start, data, c, m);
    SlaveWrite(memory, bus, c.bus.wait);
  }

  /** What the task needs of the memory, and what the encoder has done to it so far. */
  ghost predicate Underway(x: Task, m: Machine, before: Memory, size: nat) {
    FileInvariant(x, m) && FileOnly(x, before, m.Mem()) && x.j.dst + x.Size() <= size
  }

  lemma StartsUnderway(x: Task, m: Machine, c: MachineCycle, size: nat)
    requires TaskLoaded(x, m) && x.j.dst + x.Size() <= size
    ensures CodeFits(m.text.w) && !m.Outputs().write
    ensures Underway(x, Tick(m, false, true, c), m.Mem(), size)
    ensures TaskLeft(x, Tick(m, false, true, c)) == 200 * |x.j.text| + 7 * |x.Printed()| + 90
    ensures var e := Tick(m, false, true, c).e; e.state == TreeWrInput && !e.done
  {
    TaskStarts(x, m, c);
  }

  lemma StaysUnderway(x: Task, m: Machine, cycles: seq<MachineCycle>, before: Memory, size: nat)
    requires Underway(x, m, before, size) && m.e.state != Resting && MachineResponses(cycles) >= TaskLeft(x, m)
    ensures CodeFits(m.text.w) && (m.Outputs().write ==> m.Outputs().address < size) && cycles != []
    ensures Underway(x, Tick(m, false, false, cycles[0]), before, size)
    ensures MachineResponses(cycles[1..]) >= TaskLeft(x, Tick(m, false, false, cycles[0]))
  {
    WorkingCodeFits(x, m);
    if m.Outputs().write { WritesIntoFile(x, m); }
    NextTick(x, m, cycles);
    OutsideKept(x, m, cycles[0], before);
  }

  /** The signals of one run: a cycle with the reset, one with the start signal, and what follows. */
  datatype Schedule = Schedule(reset: MachineCycle, first: MachineCycle, cycles: seq<MachineCycle>)

  /** A reset, the start signal, and then until the encoder reports that it is done, for any schedule of the bus
      in which the slave responds often enough. */
  method RunEncoder(memory: array<Byte>, entity: EncoderEntity, schedule: Schedule, ghost x: Task)
    requires memory.Length <= SPACE && TaskLoaded(x, entity.Contents(Space(memory[..])))
    requires x.j.dst + x.Size() <= memory.Length
    requires MachineResponses(schedule.cycles) >= 200 * |x.j.text| + 7 * |x.Printed()| + 90
    modifies memory, entity.encoder, entity.tree, entity.text.handler, entity.text.reader, entity.text.writer,
             entity.text.writer.wipReg
    ensures FileDone(x, Space(memory[..])) && FileOnly(x, Space(old(memory[..])), Space(memory[..]))
    ensures MachineRests(entity.Contents(Space(memory[..]))) && entity.encoder.done
  {
    ghost var before, m := Space(memory[..]), entity.Contents(Space(memory[..]));
    LoadedStays(x, m, true, false, schedule.reset);
    OneCycle(memory, entity, true, false, schedule.reset, m);
    m := Tick(m, true, false, schedule.reset);
    WaitForEncoder(memory, entity, schedule.first, schedule.cycles, x, m);
  }

  method WaitForEncoder(memory: array<Byte>, entity: EncoderEntity, first: MachineCycle, cycles: seq<MachineCycle>,
                        ghost x: Task, ghost loaded: Machine)
    requires memory.Length <= SPACE && TaskLoaded(x, loaded) && loaded == entity.Contents(Space(memory[..]))
    requires x.j.dst + x.Size() <= memory.Length
    requires MachineResponses(cycles) >= 200 * |x.j.text| + 7 * |x.Printed()| + 90
    modifies memory, entity.encoder, entity.tree, entity.text.handler, entity.text.reader, entity.text.writer,
             entity.text.writer.wipReg
    ensures FileDone(x, Space(memory[..])) && FileOnly(x, loaded.Mem(), Space(memory[..]))
    ensures MachineRests(entity.Contents(Space(memory[..]))) && entity.encoder.done
  {
    ghost var m := loaded;
    StartsUnderway(x, m, first, memory.Length);
    OneCycle(memory, entity, false, true, first, m);
    m := Tick(m, false, true, first);
    var i := 0;
    while !entity.encoder.done
      invariant i <= |cycles| && m == entity.Contents(Space(memory[..])) && (m.e.state == Resting <==> m.e.done)
      invariant Underway(x, m, loaded.Mem(), memory.Length) && MachineResponses(cycles[i..]) >= TaskLeft(x, m)
      decreases |cycles| - i
    {
      StaysUnderway(x, m, cycles[i..], loaded.Mem(), memory.Length);
      OneCycle(memory, entity, false, false, cycles[i], m);
      RestIsReported(m, cycles[i]);
      m := Tick(m, false, false, cycles[i]);
      i := i + 1;
    }
  }

  /** The table of codes takes at most 56 bytes a letter. */
  lemma {:induction false} CodesTakeAtMost(t: Tree, cds: seq<string>, i: nat)
    requires CoderTable(t, cds) && i <= |cds|
    ensures H.CodeOffset(cds, i) <= 256 + 56 * i
  {
    if i > 0 {
      CodesTakeAtMost(t, cds, i - 1);
      CoderTableCode(t, cds, i - 1);
    }
  }

  /** The bits of a text, and the size of its file. */
  lemma FileTakesAtMost(t: Tree, text: string)
    requires TreeFor(t, text)
    ensures AlphabetTree(t) && Encodable(t, text) && |Print(t)| == 167
    ensures |EncodeBits(t, text) + Zeros(8)| / 8 <= |text| + 1
  {
    TreeForText(t, text);
    AverageBound(t, text);
  }

  lemma FirstWord(t: Tree, n: nat, payload: seq<Byte>)
    requires 12 + |Print(t)| + |payload| < 0x1_0000_0000 && n < 0x1_0000_0000
    ensures var file := Assemble(t, n, payload); |file| >= 4 && ReadWord(file[..4]) == |file|
  {
    var file := Assemble(t, n, payload);
    assert file[..4] == Word(|file|);
    WordRoundTrip(|file|);
  }

  /** Prepare the image and write the addresses into the registers of the encoder. */
  method LoadEncoder(g: H.GlobalAddrs, entity: EncoderEntity, cds: seq<string>, printed: string, text: string,
                     ghost t: Tree)
    returns (ghost x: Task, ghost loaded: Machine, ghost at: nat)
    requires g.Valid() && CoderTable(t, cds) && printed == Print(t) && TreeFor(t, text)
    requires |text| < 0x400_0000 && 4096 + 2 * |text| <= g.memory.Length
    requires MachineRests(entity.Contents(Space(g.memory[..])))
    modifies g, g.memory, entity.encoder
    ensures x.j.t == t && x.j.text == text && x.j.dst == at && g.dstAddr == g.encoderMemory + at
    ensures loaded == entity.Contents(Space(g.memory[..])) && TaskLoaded(x, loaded)
    ensures x.j.dst + x.Size() <= g.memory.Length && |x.Printed()| == 167
  {
    CodesTakeAtMost(t, cds, 56);
    FileTakesAtMost(t, text);
    var addresses := PrepareImage(g, cds, printed, text, t);
    entity.LoadAddresses(addresses, Space(g.memory[..]));
    x := TaskFor(t, text, addresses);
    at := addresses.dst;
    loaded := entity.Contents(Space(g.memory[..]));
    ImageLoads(t, text, loaded, g.memory[..], cds);
  }

  /** All lengths of the hardware's file fit their fields. */
  ghost predicate Sizes(t: Tree, text: string) {
    Encodable(t, text) && 12 + |Print(t)| + |HardwarePayload(t, text)| < SPACE && |text| < SPACE
  }

  /** The file that the hardware writes. */
  function HardwareFile(t: Tree, text: string): seq<Byte>
    requires Sizes(t, text)
  {
    Assemble(t, |text|, HardwarePayload(t, text))
  }

  /** What the end of a run leaves in memory. */
  lemma ResultInMemory(x: Task, memory: seq<Byte>, t: Tree, text: string, at: nat)
    requires |memory| <= SPACE && x.Valid() && FileDone(x, Space(memory)) && x.j.dst + x.Size() <= |memory|
    requires x.j.t == t && x.j.text == text && x.j.dst == at
    ensures Sizes(t, text) && Segment(memory, at, |HardwareFile(t, text)|) == HardwareFile(t, text)
  {
    InBothViews(memory, at, at + x.Size());
  }

  lemma InBothViews(memory: seq<Byte>, p: nat, q: nat)
    requires p <= q <= |memory| <= SPACE
    ensures Space(memory)[p..q] == memory[p..q]
  {
  }

  /** From the loaded encoder to the file in memory. */
  method RunToFile(memory: array<Byte>, entity: EncoderEntity, schedule: Schedule, ghost x: Task, ghost loaded: Machine,
                   ghost t: Tree, ghost text: string, ghost at: nat)
    returns (ghost end: Machine)
    requires memory.Length <= SPACE && loaded == entity.Contents(Space(memory[..])) && TaskLoaded(x, loaded)
    requires x.j.dst + x.Size() <= memory.Length && x.j.t == t && x.j.text == text && x.j.dst == at
    requires MachineResponses(schedule.cycles) >= 200 * |x.j.text| + 7 * |x.Printed()| + 90
    modifies memory, entity.encoder, entity.tree, entity.text.handler, entity.text.reader, entity.text.writer,
             entity.text.writer.wipReg
    ensures Sizes(t, text)
    ensures var file := HardwareFile(t, text); Segment(memory[..], at, |file|) == file
    ensures end == entity.Contents(Space(memory[..])) && MachineRests(end)
  {
    RunEncoder(memory, entity, schedule, x);
    ResultInMemory(x, memory[..], t, text, at);
    end := entity.Contents(Space(memory[..]));
  }

  /** From the codes to the file in memory; the address of the file. */
  method EncodeOnHardware(g: H.GlobalAddrs, entity: EncoderEntity, cds: seq<string>, printed: string, text: string,
                          schedule: Schedule, ghost t: Tree)
    returns (dst: nat, ghost at: nat, ghost end: Machine)
    requires g.Valid() && CoderTable(t, cds) && printed == Print(t) && TreeFor(t, text)
    requires |text| < 0x400_0000 && 4096 + 2 * |text| <= g.memory.Length
    requires MachineRests(entity.Contents(Space(g.memory[..])))
    requires MachineResponses(schedule.cycles) >= 200 * |text| + 1259
    modifies g, g.memory, entity.encoder, entity.tree, entity.text.handler, entity.text.reader, entity.text.writer,
             entity.text.writer.wipReg
    ensures g.Valid() && dst == g.encoderMemory + at && Sizes(t, text)
    ensures var file := HardwareFile(t, text); Segment(g.memory[..], at, |file|) == file
    ensures end == entity.Contents(Space(g.memory[..])) && MachineRests(end)
  {
    ghost var x, loaded;
    x, loaded, at := LoadEncoder(g, entity, cds, printed, text, t);
    dst := g.dstAddr;
    end := RunToFile(g.memory, entity, schedule, x, loaded, t, text, at);
  }

  /** What that file is. */
  lemma HardwareFileIs(t: Tree, text: string)
    requires TreeFor(t, text) && Sizes(t, text)
    ensures SoftwareFile(t, text, HardwareFile(t, text)) && HardwareDecodes(t, text, HardwareFile(t, text))
  {
    TreeForText(t, text);
    FileAsInSoftware(t, text);
  }

  /** Where every byte of the file comes from. */
  lemma HardwareLayout(t: Tree, text: string)
    requires TreeFor(t, text) && Sizes(t, text)
    ensures |Print(t)| == 167 && Layout(HardwareFile(t, text), Print(t), |text|, HardwarePayload(t, text))
  {
    TreeForText(t, text);
    PrintedEightBit(t);
    AssembledLayout(t, |text|, HardwarePayload(t, text));
  }

  lemma HardwareLengths(t: Tree, text: string)
    requires TreeFor(t, text) && Sizes(t, text)
    ensures var file := HardwareFile(t, text);
            && LengthAt(file, 0, |file|) && LengthAt(file, 4, 167) && LengthAt(file, 8, |text|)
            && |file| >= 4 && ReadWord(file[..4]) == |file|
  {
    HardwareLayout(t, text);
    FirstWord(t, |text|, HardwarePayload(t, text));
  }

  /** From the text to the bytes that the server sends: for every text that the memory has room for, every
      encoder at rest, and every schedule of the bus in which the slave responds often enough, the bytes are the
      file that the software assembles for some tree of the text's letter counts, but for the byte of zeros if the
      codes fill whole bytes, with the three lengths low byte first; they decode to the text, with the surplus and
      the condition stated. The encoder is at rest again. */
  method HwCompress(g: H.GlobalAddrs, entity: EncoderEntity, text: string, schedule: Schedule)
    returns (encoded: array<Byte>, ghost t: Tree, ghost file: seq<Byte>)
    requires g.Valid() && OverAlphabet(text) && |text| < 0x400_0000 && 4096 + 2 * |text| <= g.memory.Length
    requires MachineRests(entity.Contents(Space(g.memory[..])))
    requires MachineResponses(schedule.cycles) >= 200 * |text| + 1259
    modifies g, g.memory, entity.encoder, entity.tree, entity.text.handler, entity.text.reader, entity.text.writer,
             entity.text.writer.wipReg
    ensures fresh(encoded) && encoded[..] == file && TreeFor(t, text) && Encodable(t, text)
    ensures SoftwareFile(t, text, file) && HardwareDecodes(t, text, file)
    ensures LengthAt(file, 0, |file|) && LengthAt(file, 4, 167) && LengthAt(file, 8, |text|)
    ensures MachineRests(entity.Contents(Space(g.memory[..])))
  {
    var frequencies := new nat[56](_ => 0);
    LetterTable();
    PrepareFrequencies(text, LETTERS, frequencies);
    ghost var counts := frequencies[..];
    var printed, codes;
    printed, codes, t := HuffmanCodes(LETTERS, frequencies[..]);
    assert counts == Counts(text, LETTERS);
    var dst;
    ghost var at, end;
    dst, at, end := EncodeOnHardware(g, entity, codes[..], printed, text, schedule, t);
    HardwareFileIs(t, text);
    HardwareLengths(t, text);
    file := HardwareFile(t, text);
    encoded := FetchFile(g, dst, at, file);
  }
}
