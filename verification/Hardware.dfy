/** The image that the processor prepares in the memory of the FPGA: a table of pointers, the codes, the tree
    and the text, one C string after the other. */
module Hardware {
  import opened Alphabet
  import opened Bytes
  import opened FileFormat
  import opened Avalon

  /** Strings that C can store: 8-bit characters without a terminator inside. */
  ghost predicate Storable(s: string) {
    EightBit(s) && NUL !in s && |s| < 0x400_0000
  }

  /** The offset of code `i` from the start of the memory. */
  function CodeOffset(cds: seq<string>, i: nat): (offset: nat)
    requires i <= |cds|
    ensures offset >= 256
  {
    if i == 0 then 256 else CodeOffset(cds, i - 1) + |cds[i - 1]| + 1
  }

  lemma {:induction false} CodeOffsetGrows(cds: seq<string>, i: nat, k: nat)
    requires i < k <= |cds|
    ensures CodeOffset(cds, i) + |cds[i]| + 1 <= CodeOffset(cds, k)
    decreases k
  {
    if i < k - 1 { CodeOffsetGrows(cds, i, k - 1); }
  }

  lemma RoomForCode(cds: seq<string>, i: nat)
    requires i < |cds|
    ensures CodeOffset(cds, i + 1) <= CodeOffset(cds, |cds|)
  {
    if i + 1 < |cds| { CodeOffsetGrows(cds, i + 1, |cds|); }
  }

  /** A word of the memory. */
  function WordAt(mem: seq<Byte>, at: nat): nat
    requires at + 4 <= |mem|
  {
    ReadWord(mem[at..at + 4])
  }

  /** The pointer to code `i` and the code itself. */
  ghost predicate Entry(mem: seq<Byte>, cds: seq<string>, i: nat)
    requires i < |cds|
  {
    4 * i + 4 <= |mem| && WordAt(mem, 4 * i) == CodeOffset(cds, i)
        && StringAt(mem, CodeOffset(cds, i), CharBytes(cds[i]))
  }

  /** The first `n` codes are in place. */
  ghost predicate CodesWritten(mem: seq<Byte>, cds: seq<string>, n: nat)
    requires n <= |cds|
  {
    forall i :: 0 <= i < n ==> Entry(mem, cds, i)
  }

  /** The first pointer leads behind the table, every other one behind the code before it. */
  lemma PointersFollow(mem: seq<Byte>, cds: seq<string>)
    requires |cds| == 56 && CodesWritten(mem, cds, 56)
    ensures |mem| >= 224 && WordAt(mem, 0) == 256
    ensures forall i :: 0 <= i < 55 ==> WordAt(mem, 4 * (i + 1)) == WordAt(mem, 4 * i) + |cds[i]| + 1
  {
    assert Entry(mem, cds, 0) && Entry(mem, cds, 55);
    forall i | 0 <= i < 55 ensures WordAt(mem, 4 * (i + 1)) == WordAt(mem, 4 * i) + |cds[i]| + 1 {
      assert Entry(mem, cds, i) && Entry(mem, cds, i + 1);
    }
  }

  lemma SameBytes(a: seq<Byte>, b: seq<Byte>, p: nat, q: nat)
    requires p <= q <= |a| == |b| && forall x :: p <= x < q ==> a[x] == b[x]
    ensures a[p..q] == b[p..q]
  {
  }

  lemma WordKept(a: seq<Byte>, b: seq<Byte>, at: nat)
    requires at + 4 <= |a| == |b| && forall x :: at <= x < at + 4 ==> b[x] == a[x]
    ensures WordAt(b, at) == WordAt(a, at)
  {
    SameBytes(a, b, at, at + 4);
  }

  lemma StringKept(a: seq<Byte>, b: seq<Byte>, at: nat, s: seq<Byte>)
    requires StringAt(a, at, s) && |b| == |a| && forall x :: at <= x <= at + |s| ==> b[x] == a[x]
    ensures StringAt(b, at, s)
  {
    SameBytes(a, b, at, at + |s|);
  }

  /** Bytes that are not changed keep an entry. */
  lemma EntryKept(a: seq<Byte>, b: seq<Byte>, cds: seq<string>, i: nat)
    requires i < |cds| && Entry(a, cds, i) && |b| == |a|
    requires forall x :: 4 * i <= x < 4 * i + 4 ==> b[x] == a[x]
    requires forall x :: CodeOffset(cds, i) <= x <= CodeOffset(cds, i) + |cds[i]| ==> b[x] == a[x]
    ensures Entry(b, cds, i)
  {
    WordKept(a, b, 4 * i);
    StringKept(a, b, CodeOffset(cds, i), CharBytes(cds[i]));
  }

  /** Writing from the end of the codes on, or to the pointer of a later code, keeps the codes so far. */
  lemma CodesKept(a: seq<Byte>, b: seq<Byte>, cds: seq<string>, n: nat)
    requires n <= |cds| && n <= 56 && CodesWritten(a, cds, n) && |b| == |a|
    requires forall x :: 0 <= x < |a| && (x < 4 * n || 256 <= x < CodeOffset(cds, n)) ==> b[x] == a[x]
    ensures CodesWritten(b, cds, n)
  {
    forall i | 0 <= i < n ensures Entry(b, cds, i) {
      CodeOffsetGrows(cds, i, n);
      EntryKept(a, b, cds, i);
    }
  }

  /** The shared addresses, and the memory of the FPGA as the processor sees it from `encoderMemory` on. */
  class GlobalAddrs {
    const encoderMemory: nat
    const memory: array<Byte>
    var codes: nat
    var treeStr: nat
    var textSrc: nat
    var dstAddr: nat

    ghost predicate Valid()
      reads this
    {
      encoderMemory + memory.Length <= 0x1_0000_0000
    }

    constructor (base: nat, memory: array<Byte>)
      requires base + memory.Length <= 0x1_0000_0000
      ensures Valid() && this.encoderMemory == base && this.memory == memory
      ensures codes == treeStr == textSrc == dstAddr == 0
    {
      encoderMemory := base;
      this.memory := memory;
      codes, treeStr, textSrc, dstAddr := 0, 0, 0, 0;
    }

    /** `alt_write_word` */
    method WriteWord(addr: nat, n: nat)
      requires Valid() && encoderMemory <= addr && addr - encoderMemory + 4 <= memory.Length && n < 0x1_0000_0000
      modifies memory
      ensures WordAt(memory[..], addr - encoderMemory) == n && LengthAt(memory[..], addr - encoderMemory, n)
      ensures forall x :: 0 <= x < memory.Length && !(addr - encoderMemory <= x < addr - encoderMemory + 4) ==>
          memory[x] == old(memory[x])
    {
      var at := addr - encoderMemory;
      var w := Word(n);
      memory[at] := w[0];
      memory[at + 1] := w[1];
      memory[at + 2] := w[2];
      memory[at + 3] := w[3];
      assert memory[..][at..at + 4] == w;
      WordRoundTrip(n);
      LengthOfWord(memory[..], at, n);
    }

    /** `alt_read_word` */
    method LoadWord(addr: nat) returns (n: nat)
      requires Valid() && encoderMemory <= addr && addr - encoderMemory + 4 <= memory.Length
      ensures n == WordAt(memory[..], addr - encoderMemory) && LengthAt(memory[..], addr - encoderMemory, n)
    {
      var at := addr - encoderMemory;
      n := ReadWord(memory[at..at + 4]);
      assert memory[..][at..at + 4] == memory[at..at + 4];
    }

    /** `copy_str_to_mem` */
    method CopyStrToMem(dst: nat, s: string)
      requires Valid() && Storable(s) && encoderMemory <= dst && dst - encoderMemory + |s| < memory.Length
      modifies memory
      ensures StringAt(memory[..], dst - encoderMemory, CharBytes(s))
      ensures forall x :: 0 <= x < memory.Length && !(dst - encoderMemory <= x <= dst - encoderMemory + |s|) ==>
          memory[x] == old(memory[x])
    {
      var at := dst - encoderMemory;
      var i := 0;
      while i < 0x400_0000
        invariant 0 <= i <= |s|
        invariant forall k :: 0 <= k < i ==> memory[at + k] == CharBytes(s)[k]
        invariant forall x :: 0 <= x < memory.Length && !(at <= x < at + i) ==> memory[x] == old(memory[x])
        decreases |s| - i
      {
        var c := if i < |s| then s[i] as int else 0;
        memory[at + i] := c % 256;
        if c == 0 {
          break;
        }
        i := i + 1;
      }
      assert i == |s|;
      assert memory[..][at..at + |s|] == CharBytes(s);
    }

    /** `str_len_mem` */
    method StrLenMem(src: nat, ghost s: string) returns (n: nat)
      requires Valid() && Storable(s) && encoderMemory <= src && StringAt(memory[..], src - encoderMemory, CharBytes(s))
      ensures n == |s|
    {
      var at := src - encoderMemory;
      n := 0;
      assert forall k :: 0 <= k < |s| ==>
          s[k] != NUL && memory[at + k] == memory[..][at..at + |s|][k] == CharBytes(s)[k];
      while memory[at + n] != 0
        invariant 0 <= n <= |s|
        decreases |s| - n
      {
        n := n + 1;
      }
    }

    /** The codes at the start of the memory: 56 pointers, then from 256 on the strings. */
    method WriteCodesToMem(cds: seq<string>)
      requires Valid() && |cds| == 56 && forall i :: 0 <= i < 56 ==> Storable(cds[i])
      requires CodeOffset(cds, 56) <= memory.Length
      modifies this`codes, memory
      ensures codes == encoderMemory && CodesWritten(memory[..], cds, 56)
      ensures WordAt(memory[..], 0) == 256
      ensures forall i :: 0 <= i < 55 ==> WordAt(memory[..], 4 * (i + 1)) == WordAt(memory[..], 4 * i) + |cds[i]| + 1
      ensures forall x :: CodeOffset(cds, 56) <= x < memory.Length ==> memory[x] == old(memory[x])
    {
      codes := encoderMemory;
      RoomForCode(cds, 0);
      WriteFirstCode(cds);
      for i := 1 to 56
        invariant codes == encoderMemory && CodesWritten(memory[..], cds, i)
        invariant forall x :: CodeOffset(cds, 56) <= x < memory.Length ==> memory[x] == old(memory[x])
      {
        var code2 := AfterCode(cds, i);
        RoomForCode(cds, i);
        AppendCode(cds, i, code2);
      }
      PointersFollow(memory[..], cds);
    }

    /** The first code comes right after the table. */
    method WriteFirstCode(cds: seq<string>)
      requires Valid() && |cds| == 56 && Storable(cds[0]) && codes == encoderMemory
      requires CodeOffset(cds, 1) <= CodeOffset(cds, 56) <= memory.Length
      modifies memory
      ensures CodesWritten(memory[..], cds, 1)
      ensures forall x :: CodeOffset(cds, 56) <= x < memory.Length ==> memory[x] == old(memory[x])
    {
      var code1 := codes + 256;
      CopyStrToMem(code1, cds[0]);
      ghost var m := memory[..];
      WriteWord(codes, code1 - encoderMemory);
      StringKept(m, memory[..], 256, CharBytes(cds[0]));
    }

    /** The address after the code before code `i`, found through the table. */
    method AfterCode(cds: seq<string>, i: nat) returns (code2: nat)
      requires Valid() && |cds| == 56 && 1 <= i < 56 && Storable(cds[i - 1])
      requires codes == encoderMemory && CodesWritten(memory[..], cds, i)
      ensures code2 == encoderMemory + CodeOffset(cds, i)
    {
      assert Entry(memory[..], cds, i - 1);
      var prev := LoadWord(codes + 4 * (i - 1));
      prev := prev + encoderMemory;
      var length := StrLenMem(prev, cds[i - 1]);
      code2 := prev + length + 1;
    }

    /** One more code, and the pointer to it. */
    method AppendCode(cds: seq<string>, i: nat, code2: nat)
      requires Valid() && |cds| == 56 && 1 <= i < 56 && Storable(cds[i])
      requires codes == encoderMemory && code2 == encoderMemory + CodeOffset(cds, i)
      requires CodeOffset(cds, i + 1) <= memory.Length && CodesWritten(memory[..], cds, i)
      modifies memory
      ensures CodesWritten(memory[..], cds, i + 1)
      ensures forall x :: CodeOffset(cds, i + 1) <= x < memory.Length ==> memory[x] == old(memory[x])
    {
      ghost var m0 := memory[..];
      CopyStrToMem(code2, cds[i]);
      ghost var m1 := memory[..];
      WriteWord(codes + i * 4, code2 - encoderMemory);
      CodesKept(m0, memory[..], cds, i);
      StringKept(m1, memory[..], CodeOffset(cds, i), CharBytes(cds[i]));
      assert Entry(memory[..], cds, i);
    }

    /** The tree, four bytes after the end of the last code. */
    method WriteTreeToMem(tree: string, ghost cds: seq<string>)
      requires Valid() && Storable(tree) && |cds| == 56 && forall i :: 0 <= i < 56 ==> Storable(cds[i])
      requires codes == encoderMemory && CodesWritten(memory[..], cds, 56)
      requires CodeOffset(cds, 56) + 3 + |tree| < memory.Length
      modifies this`treeStr, memory
      ensures treeStr == encoderMemory + CodeOffset(cds, 56) + 3
      ensures CodesWritten(memory[..], cds, 56)
      ensures StringAt(memory[..], treeStr - encoderMemory, CharBytes(tree))
    {
      ghost var m := memory[..];
      assert Entry(m, cds, 55);
      var lastCodeAddr := LoadWord(codes + 55 * 4);
      lastCodeAddr := lastCodeAddr + encoderMemory;
      var length := StrLenMem(lastCodeAddr, cds[55]);
      treeStr := lastCodeAddr + length + 4;
      CopyStrToMem(treeStr, tree);
      CodesKept(m, memory[..], cds, 56);
    }

    /** The text, four bytes after the end of the tree; the output goes four bytes after the end of the text. */
    method WriteTextToMem(text: string, ghost tree: string, ghost cds: seq<string>)
      requires Valid() && Storable(text) && Storable(tree) && |cds| == 56
      requires treeStr == encoderMemory + CodeOffset(cds, 56) + 3
      requires CodesWritten(memory[..], cds, 56) && StringAt(memory[..], treeStr - encoderMemory, CharBytes(tree))
      requires CodeOffset(cds, 56) + 3 + |tree| + 4 + |text| < memory.Length
      modifies this`textSrc, this`dstAddr, memory
      ensures textSrc == treeStr + |tree| + 4 && dstAddr == textSrc + |text| + 4
      ensures CodesWritten(memory[..], cds, 56)
      ensures StringAt(memory[..], treeStr - encoderMemory, CharBytes(tree))
      ensures StringAt(memory[..], textSrc - encoderMemory, CharBytes(text))
    {
      ghost var m := memory[..];
      var length := StrLenMem(treeStr, tree);
      textSrc := treeStr + length + 4;
      CopyStrToMem(textSrc, text);
      CodesKept(m, memory[..], cds, 56);
      StringKept(m, memory[..], treeStr - encoderMemory, CharBytes(tree));
      length := StrLenMem(textSrc, text);
      dstAddr := textSrc + length + 4;
    }
  }
}
