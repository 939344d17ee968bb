/** The WebAssembly section scanner of src/wasm.rs and the module encoding it reads
    (WebAssembly Core Specification 1.0, sections 5.2.2, 5.5.2 and 5.5.8).

    Seven-bit groups are or-ed into disjoint bit positions, so the model adds them; that each
    accumulator stays below the next weight is part of the loop invariants. */
module Wasm {
  import opened Basics

  type Byte = b: int | 0 <= b < 256

  const HEADER: seq<Byte> := [0x00, 0x61, 0x73, 0x6D, 1, 0, 0, 0]
  const U32: nat := 0x1_0000_0000
  const MEMORY: Byte := 5
  const EXPORT: Byte := 7

  function Pow2(n: nat): (p: nat)
    ensures p > 0
  {
    if n == 0 then 1 else 2 * Pow2(n - 1)
  }

  lemma Pow2Seven(n: nat)
    ensures Pow2(n + 7) == 128 * Pow2(n)
  {
    assert Pow2(n + 7) == 2 * Pow2(n + 6) && Pow2(n + 6) == 2 * Pow2(n + 5) && Pow2(n + 5) == 2 * Pow2(n + 4);
    assert Pow2(n + 4) == 2 * Pow2(n + 3) && Pow2(n + 3) == 2 * Pow2(n + 2) && Pow2(n + 2) == 2 * Pow2(n + 1);
  }

  /** `acc | ((b & 0x7F) << shift)`. */
  function Accumulate(acc: nat, b: Byte, shift: nat): nat { acc + (b % 128) * Pow2(shift) }

  lemma AccumulateFits(acc: nat, b: Byte, shift: nat)
    requires acc < Pow2(shift)
    ensures Accumulate(acc, b, shift) < Pow2(shift + 7)
  {
    Pow2Seven(shift);
    Scaled(b % 128, 127, Pow2(shift));
  }

  lemma Scaled(a: nat, b: nat, w: nat)
    requires a <= b
    ensures a * w <= b * w
  {
  }

  // ---------------------------------------------------------------- what the scanner computes

  datatype Leb = Leb(value: nat, next: nat) | Overflow

  /** The length loop: a sixth group is an overflow; the end of the input just stops. */
  function ReadLength(bytes: seq<Byte>, pos: nat, shift: nat, acc: nat): (r: Leb)
    requires pos <= |bytes|
    ensures r.Leb? ==> pos <= r.next <= |bytes| && (pos < |bytes| ==> pos < r.next)
    decreases |bytes| - pos
  {
    if pos == |bytes| then Leb(acc, pos)
    else if shift > 28 then Overflow
    else
      var acc' := Accumulate(acc, bytes[pos], shift);
      if bytes[pos] < 128 then Leb(acc', pos + 1) else ReadLength(bytes, pos + 1, shift + 7, acc')
  }

  /** The two loops inside a memory section: at most five groups, never past `end`. */
  function ReadInside(bytes: seq<Byte>, pos: nat, end: nat, shift: nat, acc: nat): (r: (nat, nat))
    requires pos <= end <= |bytes|
    ensures pos <= r.1 <= end
    decreases end - pos
  {
    if pos == end then (acc, pos)
    else
      var acc' := Accumulate(acc, bytes[pos], shift);
      if bytes[pos] < 128 || shift + 7 > 28 then (acc', pos + 1)
      else ReadInside(bytes, pos + 1, end, shift + 7, acc')
  }

  /** `(initial_pages.max(1)) as u32`. */
  function Reported(pages: nat): nat { AtLeastOne(pages) % U32 }

  function AtLeastOne(pages: nat): nat { if pages > 1 then pages else 1 }

  function MemoryPages(bytes: seq<Byte>, pos: nat, end: nat): nat
    requires pos <= end <= |bytes|
  {
    var (count, flag) := ReadInside(bytes, pos, end, 0, 0);
    if count > 0 && flag < end then Reported(ReadInside(bytes, flag + 1, end, 0, 0).0) else 1
  }

  datatype Found = Found(exports: nat, memory: Option<nat>)

  datatype Error = TooSmall | BadMagic | BadVersion(version: nat) | LebOverflow | SectionTooLong | OverLimit(pages: nat)

  datatype Result<+T> = Ok(value: T) | Err(error: Error)

  function Noted(f: Found, bytes: seq<Byte>, id: Byte, pos: nat, end: nat): Found
    requires pos <= end <= |bytes|
  {
    Found(if id == EXPORT then f.exports + 1 else f.exports,
          if id == MEMORY && pos < end then Some(MemoryPages(bytes, pos, end)) else f.memory)
  }

  function Scan(bytes: seq<Byte>, pos: nat, f: Found): Result<Found>
    requires pos <= |bytes|
    decreases |bytes| - pos
  {
    if pos == |bytes| || pos + 1 == |bytes| then Ok(f)
    else match ReadLength(bytes, pos + 1, 0, 0)
      case Overflow => Err(LebOverflow)
      case Leb(length, start) =>
        if start + length > |bytes| then Err(SectionTooLong)
        else Scan(bytes, start + length, Noted(f, bytes, bytes[pos], start, start + length))
  }

  datatype Metadata = Metadata(version: nat, memory: Option<nat>, exports: nat, size: nat)

  function Version(bytes: seq<Byte>): nat
    requires |bytes| >= 8
  {
    bytes[4] as int + 0x100 * bytes[5] as int + 0x1_0000 * bytes[6] as int + 0x100_0000 * bytes[7] as int
  }

  function Judged(bytes: seq<Byte>, maxPages: nat, scanned: Result<Found>): Result<Metadata> {
    match scanned
    case Err(e) => Err(e)
    case Ok(f) =>
      if f.memory.Some? && f.memory.value > maxPages then Err(OverLimit(f.memory.value))
      else Ok(Metadata(1, f.memory, f.exports, |bytes|))
  }

  function Inspect(bytes: seq<Byte>, maxPages: nat): Result<Metadata> {
    if |bytes| < 8 then Err(TooSmall)
    else if bytes[..4] != HEADER[..4] then Err(BadMagic)
    else if Version(bytes) != 1 then Err(BadVersion(Version(bytes)))
    else Judged(bytes, maxPages, Scan(bytes, 8, Found(0, None)))
  }

  // ---------------------------------------------------------------- the scanner

  method ReadLengthAt(bytes: seq<Byte>, start: nat) returns (r: Leb)
    requires start <= |bytes|
    ensures r == ReadLength(bytes, start, 0, 0)
  {
    var pos: nat, length: nat, shift: nat := start, 0, 0;
    assert Pow2(0) == 1;
    while pos < |bytes|
      invariant start <= pos <= |bytes| && length < Pow2(shift)
      invariant ReadLength(bytes, start, 0, 0) == ReadLength(bytes, pos, shift, length)
    {
      var b := bytes[pos];
      pos := pos + 1;
      if shift > 28 {
        return Overflow;
      }
      AccumulateFits(length, b, shift);
      length := Accumulate(length, b, shift);
      if b < 128 {
        return Leb(length, pos);
      }
      shift := shift + 7;
    }
    r := Leb(length, pos);
  }

  method ReadInsideAt(bytes: seq<Byte>, start: nat, end: nat) returns (value: nat, pos: nat)
    requires start <= end <= |bytes|
    ensures (value, pos) == ReadInside(bytes, start, end, 0, 0)
    ensures value < Pow2(35)
  {
    pos, value := start, 0;
    var shift: nat := 0;
    assert Pow2(0) == 1;
    while pos < end
      invariant start <= pos <= end && shift <= 28 && value < Pow2(shift)
      invariant ReadInside(bytes, start, end, 0, 0) == ReadInside(bytes, pos, end, shift, value)
      decreases end - pos
    {
      var b := bytes[pos];
      pos := pos + 1;
      AccumulateFits(value, b, shift);
      value := Accumulate(value, b, shift);
      if b < 128 {
        Pow2Grows(shift + 7, 35);
        return;
      }
      shift := shift + 7;
      if shift > 28 {
        Pow2Grows(shift, 35);
        return;
      }
    }
    Pow2Grows(shift, 35);
  }

  /** The body of the memory section: count, flag, minimum. */
  method InspectMemory(bytes: seq<Byte>, start: nat, end: nat) returns (pages: nat)
    requires start <= end <= |bytes|
    ensures pages == MemoryPages(bytes, start, end)
  {
    var count, flag := ReadInsideAt(bytes, start, end);
    if count > 0 && flag < end {
      var initialPages, _ := ReadInsideAt(bytes, flag + 1, end);
      pages := (if initialPages > 1 then initialPages else 1) % U32;
    } else {
      pages := 1;
    }
  }

  /** The section loop. */
  method ScanSections(bytes: seq<Byte>) returns (r: Result<Found>)
    requires |bytes| >= 8
    ensures r == Scan(bytes, 8, Found(0, None))
  {
    var pos := 8;
    var exportCount := 0;
    var declaredMemory: Option<nat> := None;
    while pos < |bytes|
      invariant 8 <= pos <= |bytes|
      invariant Scan(bytes, 8, Found(0, None)) == Scan(bytes, pos, Found(exportCount, declaredMemory))
      decreases |bytes| - pos
    {
      var id := bytes[pos];
      if pos + 1 >= |bytes| {
        break;
      }
      var length := ReadLengthAt(bytes, pos + 1);
      if length.Overflow? {
        return Err(LebOverflow);
      }
      var start := length.next;
      var end := start + length.value;
      if end > |bytes| {
        return Err(SectionTooLong);
      }
      if id == MEMORY && length.value > 0 {
        var pages := InspectMemory(bytes, start, end);
        declaredMemory := Some(pages);
      }
      if id == EXPORT {
        exportCount := exportCount + 1;
      }
      pos := end;
    }
    r := Ok(Found(exportCount, declaredMemory));
  }

  lemma {:induction false} Pow2Grows(m: nat, n: nat)
    requires m <= n
    ensures Pow2(m) <= Pow2(n)
  {
    if m < n {
      Pow2Grows(m, n - 1);
    }
  }

  /** `WasmModuleValidator::inspect`, on any bytes whatever. */
  method InspectModule(bytes: seq<Byte>, maxPages: nat) returns (r: Result<Metadata>)
    ensures r == Inspect(bytes, maxPages)
  {
    if |bytes| < 8 {
      return Err(TooSmall);
    }
    if bytes[0..4] != HEADER[..4] {
      assert bytes[0..4] == bytes[..4];
      return Err(BadMagic);
    }
    assert bytes[0..4] == bytes[..4];
    var version := Version(bytes);
    if version != 1 {
      return Err(BadVersion(version));
    }
    var scanned := ScanSections(bytes);
    if scanned.Err? {
      return Err(scanned.error);
    }
    var memory := scanned.value.memory;
    if memory.Some? && memory.value > maxPages {
      return Err(OverLimit(memory.value));
    }
    r := Ok(Metadata(version, memory, scanned.value.exports, |bytes|));
  }

  // ---------------------------------------------------------------- well-formed modules

  /** The number a LEB128 code stands for. */
  function LebValue(code: seq<Byte>): nat {
    if code == [] then 0 else code[0] % 128 + 128 * LebValue(code[1..])
  }

  /** A code of at most five groups, minimal or padded: all but the last continue. */
  ghost predicate IsLeb(code: seq<Byte>, n: nat) {
    && 0 < |code| <= 5 && LebValue(code) == n
    && (forall k | 0 <= k < |code| - 1 :: code[k] >= 128) && code[|code| - 1] < 128
  }

  /** A section: the memory section as its fields, any other as raw content. */
  datatype Section =
    | Plain(id: Byte, lengthCode: seq<Byte>, content: seq<Byte>)
    | Memory(lengthCode: seq<Byte>, countCode: seq<Byte>, count: nat,
             flag: Byte, minCode: seq<Byte>, min: nat, rest: seq<Byte>)

  function Id(s: Section): Byte { if s.Plain? then s.id else 5 }

  function Content(s: Section): seq<Byte> {
    match s
    case Plain(_, _, content) => content
    case Memory(_, countCode, count, flag, minCode, _, rest) =>
      if count == 0 then countCode else countCode + [flag] + minCode + rest
  }

  ghost predicate WellFormed(s: Section) {
    && IsLeb(s.lengthCode, |Content(s)|)
    && (s.Plain? ==> s.id != 5)
    && (s.Memory? ==> IsLeb(s.countCode, s.count) && (s.count > 0 ==> IsLeb(s.minCode, s.min)))
  }

  function EncodeSection(s: Section): seq<Byte> { [Id(s)] + s.lengthCode + Content(s) }

  function EncodeAll(sections: seq<Section>): seq<Byte> {
    if sections == [] then [] else EncodeSection(sections[0]) + EncodeAll(sections[1..])
  }

  /** The magic number, version 1, and the sections. */
  function EncodeModule(sections: seq<Section>): seq<Byte> { [0x00, 0x61, 0x73, 0x6D, 1, 0, 0, 0] + EncodeAll(sections) }

  function ExportSections(sections: seq<Section>): nat {
    if sections == [] then 0 else (if Id(sections[0]) == 7 then 1 else 0) + ExportSections(sections[1..])
  }

  /** What the last memory section declares; an empty memory vector counts as one page. */
  function LastMemory(sections: seq<Section>): Option<nat> {
    if sections == [] then None else
      var later := LastMemory(sections[1..]);
      if later.Some? || sections[0].Plain? then later
      else Some(Declared(sections[0]))
  }

  // ---------------------------------------------------------------- decoding what was encoded

  /** From `pos` on, the bytes are `text`. */
  predicate At(bytes: seq<Byte>, pos: nat, text: seq<Byte>)
    decreases |text|
  {
    if text == [] then pos == |bytes|
    else pos < |bytes| && bytes[pos] == text[0] && At(bytes, pos + 1, text[1..])
  }

  lemma {:induction false} AtLength(bytes: seq<Byte>, pos: nat, text: seq<Byte>)
    requires At(bytes, pos, text)
    ensures pos + |text| == |bytes|
    decreases |text|
  {
    if text != [] {
      AtLength(bytes, pos + 1, text[1..]);
    }
  }

  lemma {:induction false} AtSkip(bytes: seq<Byte>, pos: nat, a: seq<Byte>, b: seq<Byte>)
    requires At(bytes, pos, a + b)
    ensures At(bytes, pos + |a|, b) && pos + |a| + |b| == |bytes|
    ensures a != [] ==> bytes[pos] == a[0]
    decreases |a|
  {
    if a == [] {
      assert a + b == b;
      AtLength(bytes, pos, b);
    } else {
      assert (a + b)[0] == a[0] && (a + b)[1..] == a[1..] + b;
      AtSkip(bytes, pos + 1, a[1..], b);
    }
  }

  lemma {:induction false} AtSuffix(bytes: seq<Byte>, pos: nat)
    requires pos <= |bytes|
    ensures At(bytes, pos, bytes[pos..])
    decreases |bytes| - pos
  {
    if pos < |bytes| {
      AtSuffix(bytes, pos + 1);
      assert bytes[pos..][1..] == bytes[pos + 1..];
    }
  }

  lemma Regroup128(w: nat, group: nat, rest: nat)
    ensures group * w + rest * (128 * w) == (group + 128 * rest) * w
  {
    assert rest * (128 * w) == (128 * rest) * w;
  }

  lemma GroupStep(code: seq<Byte>, shift: nat, acc: nat)
    requires code != []
    ensures Accumulate(acc, code[0], shift) + LebValue(code[1..]) * Pow2(shift + 7) == acc + LebValue(code) * Pow2(shift)
  {
    Pow2Seven(shift);
    Regroup128(Pow2(shift), code[0] % 128, LebValue(code[1..]));
  }

  lemma {:induction false} ReadLengthDecodes(bytes: seq<Byte>, pos: nat, code: seq<Byte>, rest: seq<Byte>, shift: nat, acc: nat)
    requires At(bytes, pos, code + rest) && code != [] && shift + 7 * (|code| - 1) <= 28
    requires (forall k | 0 <= k < |code| - 1 :: code[k] >= 128) && code[|code| - 1] < 128
    ensures ReadLength(bytes, pos, shift, acc) == Leb(acc + LebValue(code) * Pow2(shift), pos + |code|)
    decreases |code|
  {
    assert code + rest == [code[0]] + (code[1..] + rest);
    AtSkip(bytes, pos, [code[0]], code[1..] + rest);
    GroupStep(code, shift, acc);
    if |code| > 1 {
      ReadLengthDecodes(bytes, pos + 1, code[1..], rest, shift + 7, Accumulate(acc, code[0], shift));
    }
  }

  lemma {:induction false} ReadInsideDecodes(bytes: seq<Byte>, pos: nat, end: nat, code: seq<Byte>, rest: seq<Byte>, shift: nat, acc: nat)
    requires At(bytes, pos, code + rest) && pos + |code| <= end <= |bytes|
    requires code != [] && shift + 7 * (|code| - 1) <= 28
    requires (forall k | 0 <= k < |code| - 1 :: code[k] >= 128) && code[|code| - 1] < 128
    ensures ReadInside(bytes, pos, end, shift, acc) == (acc + LebValue(code) * Pow2(shift), pos + |code|)
    decreases |code|
  {
    assert code + rest == [code[0]] + (code[1..] + rest);
    AtSkip(bytes, pos, [code[0]], code[1..] + rest);
    GroupStep(code, shift, acc);
    if |code| > 1 {
      ReadInsideDecodes(bytes, pos + 1, end, code[1..], rest, shift + 7, Accumulate(acc, code[0], shift));
    }
  }

  lemma CodeLengthRead(bytes: seq<Byte>, pos: nat, code: seq<Byte>, rest: seq<Byte>, n: nat)
    requires At(bytes, pos, code + rest) && IsLeb(code, n)
    ensures ReadLength(bytes, pos, 0, 0) == Leb(n, pos + |code|)
  {
    assert Pow2(0) == 1;
    ReadLengthDecodes(bytes, pos, code, rest, 0, 0);
  }

  lemma CodeInsideRead(bytes: seq<Byte>, pos: nat, end: nat, code: seq<Byte>, rest: seq<Byte>, n: nat)
    requires At(bytes, pos, code + rest) && IsLeb(code, n) && pos + |code| <= end <= |bytes|
    ensures ReadInside(bytes, pos, end, 0, 0) == (n, pos + |code|)
  {
    assert Pow2(0) == 1;
    ReadInsideDecodes(bytes, pos, end, code, rest, 0, 0);
  }

  /** A memory vector that is not empty: its count, a limits flag, the minimum. */
  lemma LimitsDecode(bytes: seq<Byte>, pos: nat, end: nat, countCode: seq<Byte>, limits: seq<Byte>, count: nat,
                     minCode: seq<Byte>, rest: seq<Byte>, min: nat)
    requires At(bytes, pos, countCode + limits) && IsLeb(countCode, count) && count > 0
    requires At(bytes, pos + |countCode| + 1, minCode + rest) && IsLeb(minCode, min)
    requires pos + |countCode| + 1 + |minCode| <= end <= |bytes|
    ensures MemoryPages(bytes, pos, end) == Reported(min)
  {
    CodeInsideRead(bytes, pos, end, countCode, limits, count);
    CodeInsideRead(bytes, pos + |countCode| + 1, end, minCode, rest, min);
  }

  /** What a memory section declares. */
  function Declared(s: Section): nat
    requires s.Memory?
  {
    if s.count == 0 then 1 else Reported(s.min)
  }

  lemma MemorySplit(countCode: seq<Byte>, flag: Byte, minCode: seq<Byte>, tail: seq<Byte>, rest: seq<Byte>)
    ensures countCode + [flag] + minCode + tail + rest == countCode + ([flag] + (minCode + (tail + rest)))
  {
    RegroupFour(countCode, [flag], minCode, tail + rest);
    assert countCode + [flag] + minCode + tail + rest == countCode + [flag] + minCode + (tail + rest);
  }

  lemma MemoryDecodes(bytes: seq<Byte>, pos: nat, s: Section, rest: seq<Byte>)
    requires s.Memory? && WellFormed(s) && At(bytes, pos, Content(s) + rest)
    requires pos + |Content(s)| <= |bytes|
    ensures MemoryPages(bytes, pos, pos + |Content(s)|) == Declared(s)
  {
    var end := pos + |Content(s)|;
    if s.count == 0 {
      CodeInsideRead(bytes, pos, end, s.countCode, rest, 0);
    } else {
      MemorySplit(s.countCode, s.flag, s.minCode, s.rest, rest);
      var tail := s.minCode + (s.rest + rest);
      var limits := [s.flag] + tail;
      AtSkip(bytes, pos, s.countCode, limits);
      AtSkip(bytes, pos + |s.countCode|, [s.flag], tail);
      LimitsDecode(bytes, pos, end, s.countCode, limits, s.count, s.minCode, s.rest + rest, s.min);
    }
  }

  function NotedSection(f: Found, s: Section): Found {
    Found(if Id(s) == EXPORT then f.exports + 1 else f.exports, if s.Plain? then f.memory else Some(Declared(s)))
  }

  /** Reading one id, length and content. */
  lemma RawSectionDecodes(bytes: seq<Byte>, pos: nat, id: Byte, lengthCode: seq<Byte>, content: seq<Byte>, rest: seq<Byte>, f: Found)
    requires At(bytes, pos, [id] + (lengthCode + (content + rest))) && IsLeb(lengthCode, |content|)
    ensures var start := pos + 1 + |lengthCode|;
      && At(bytes, start, content + rest) && start + |content| <= |bytes|
      && Scan(bytes, pos, f) == Scan(bytes, start + |content|, Noted(f, bytes, id, start, start + |content|))
  {
    AtSkip(bytes, pos, [id], lengthCode + (content + rest));
    AtSkip(bytes, pos + 1, lengthCode, content + rest);
    CodeLengthRead(bytes, pos + 1, lengthCode, content + rest, |content|);
    ScanSection(bytes, pos, f, pos + 1 + |lengthCode|, |content|);
  }

  lemma SectionSplit(s: Section, rest: seq<Byte>)
    ensures EncodeSection(s) + rest == [Id(s)] + (s.lengthCode + (Content(s) + rest))
    ensures |EncodeSection(s)| == 1 + |s.lengthCode| + |Content(s)|
  {
    RegroupFour([Id(s)], s.lengthCode, Content(s), rest);
  }

  /** One encoded section is scanned as that section. */
  lemma SectionDecodes(bytes: seq<Byte>, pos: nat, s: Section, rest: seq<Byte>, f: Found)
    requires WellFormed(s) && At(bytes, pos, EncodeSection(s) + rest)
    ensures pos + |EncodeSection(s)| <= |bytes|
    ensures Scan(bytes, pos, f) == Scan(bytes, pos + |EncodeSection(s)|, NotedSection(f, s))
  {
    SectionSplit(s, rest);
    RawSectionDecodes(bytes, pos, Id(s), s.lengthCode, Content(s), rest, f);
    SectionNoted(bytes, pos + 1 + |s.lengthCode|, s, rest, f);
  }

  lemma SectionNoted(bytes: seq<Byte>, start: nat, s: Section, rest: seq<Byte>, f: Found)
    requires WellFormed(s) && At(bytes, start, Content(s) + rest) && start + |Content(s)| <= |bytes|
    ensures Noted(f, bytes, Id(s), start, start + |Content(s)|) == NotedSection(f, s)
  {
    if s.Memory? {
      MemoryDecodes(bytes, start, s, rest);
    }
  }

  lemma ScanSection(bytes: seq<Byte>, pos: nat, f: Found, start: nat, length: nat)
    requires pos + 1 < |bytes| && ReadLength(bytes, pos + 1, 0, 0) == Leb(length, start) && start + length <= |bytes|
    ensures Scan(bytes, pos, f) == Scan(bytes, start + length, Noted(f, bytes, bytes[pos], start, start + length))
  {
  }

  function NotedAll(f: Found, sections: seq<Section>): Found
    decreases |sections|
  {
    if sections == [] then f else NotedAll(NotedSection(f, sections[0]), sections[1..])
  }

  lemma {:induction false} NotedAllIs(f: Found, sections: seq<Section>)
    ensures NotedAll(f, sections) == Found(f.exports + ExportSections(sections),
              if LastMemory(sections).Some? then LastMemory(sections) else f.memory)
    decreases |sections|
  {
    if sections != [] {
      NotedAllIs(NotedSection(f, sections[0]), sections[1..]);
    }
  }

  lemma SectionsStep(bytes: seq<Byte>, pos: nat, s: Section, rest: seq<Byte>, f: Found) returns (next: nat)
    requires WellFormed(s) && At(bytes, pos, EncodeSection(s) + rest)
    ensures pos <= |bytes| && next <= |bytes| && At(bytes, next, rest)
    ensures Scan(bytes, pos, f) == Scan(bytes, next, NotedSection(f, s))
  {
    next := pos + |EncodeSection(s)|;
    SectionDecodes(bytes, pos, s, rest, f);
    AtSkip(bytes, pos, EncodeSection(s), rest);
  }

  /** Well-formed sections are scanned as such, whatever follows them. */
  lemma {:induction false} SectionsBefore(bytes: seq<Byte>, pos: nat, sections: seq<Section>, rest: seq<Byte>, f: Found)
    returns (next: nat)
    requires forall s | s in sections :: WellFormed(s)
    requires At(bytes, pos, EncodeAll(sections) + rest)
    ensures pos <= |bytes| && next <= |bytes| && At(bytes, next, rest)
    ensures Scan(bytes, pos, f) == Scan(bytes, next, NotedAll(f, sections))
    decreases |sections|
  {
    AtLength(bytes, pos, EncodeAll(sections) + rest);
    if sections == [] {
      next := pos;
      assert EncodeAll(sections) + rest == rest;
    } else {
      Regroup(EncodeSection(sections[0]), EncodeAll(sections[1..]), rest);
      next := SectionsStep(bytes, pos, sections[0], EncodeAll(sections[1..]) + rest, f);
      next := SectionsBefore(bytes, next, sections[1..], rest, NotedSection(f, sections[0]));
    }
  }

  lemma SectionsDecode(bytes: seq<Byte>, pos: nat, sections: seq<Section>, f: Found)
    requires forall s | s in sections :: WellFormed(s)
    requires At(bytes, pos, EncodeAll(sections))
    ensures pos <= |bytes| && Scan(bytes, pos, f) == Ok(NotedAll(f, sections))
  {
    assert EncodeAll(sections) + [] == EncodeAll(sections);
    var next := SectionsBefore(bytes, pos, sections, [], f);
  }

  /** Every well-formed module is read as its sections: the id-7 sections are counted, the
      last memory section is reported, and the module is accepted exactly when that report is
      within the limit. */
  lemma ModuleRoundTrips(sections: seq<Section>, maxPages: nat)
    requires forall s | s in sections :: WellFormed(s)
    ensures var m, memory := EncodeModule(sections), LastMemory(sections);
      Inspect(m, maxPages) ==
        if memory.Some? && memory.value > maxPages then Err(OverLimit(memory.value))
        else Ok(Metadata(1, memory, ExportSections(sections), |m|))
  {
    var m := EncodeModule(sections);
    assert m[..8] == HEADER && m[8..] == EncodeAll(sections);
    AtSuffix(m, 8);
    SectionsDecode(m, 8, sections, Found(0, None));
    NotedAllIs(Found(0, None), sections);
  }

  /** The pages the scanner saw, whether it accepted them or refused them. */
  function PagesSeen(r: Result<Metadata>): Option<nat> {
    match r
    case Ok(m) => m.memory
    case Err(OverLimit(pages)) => Some(pages)
    case Err(_) => None
  }

  lemma {:induction false} LastMemoryIs(before: seq<Section>, s: Section, after: seq<Section>)
    requires s.Memory? && forall t | t in after :: t.Plain?
    ensures LastMemory(before + [s] + after) == Some(Declared(s))
    decreases |before| + |after|
  {
    var all := before + [s] + after;
    if before != [] {
      assert all[1..] == before[1..] + [s] + after;
      LastMemoryIs(before[1..], s, after);
    } else {
      assert all[0] == s && all[1..] == after;
      NoMemory(after);
    }
  }

  lemma {:induction false} NoMemory(sections: seq<Section>)
    requires forall t | t in sections :: t.Plain?
    ensures LastMemory(sections) == None
  {
    if sections != [] {
      NoMemory(sections[1..]);
    }
  }

  /** Of a module whose last memory section declares a minimum, the scanner sees max(1, minimum)
      pages exactly while the minimum is below 2^32, as the standard demands. Five groups can
      carry more; the cast to 32 bits then drops the upper ones. So the limit, itself a `u32`,
      is enforced exactly when the minimum is below 2^32 or what the cast leaves exceeds it. */
  lemma ReportExactIff(before: seq<Section>, s: Section, after: seq<Section>, maxPages: nat)
    requires forall t | t in before + [s] + after :: WellFormed(t)
    requires s.Memory? && s.count > 0 && maxPages < U32 && forall t | t in after :: t.Plain?
    ensures var r := Inspect(EncodeModule(before + [s] + after), maxPages);
      && (PagesSeen(r) == Some(if s.min > 1 then s.min else 1) <==> s.min < 0x1_0000_0000)
      && ((r.Ok? <==> s.min <= maxPages && 1 <= maxPages) <==> (s.min < 0x1_0000_0000 || s.min % 0x1_0000_0000 > maxPages))
  {
    LastMemoryIs(before, s, after);
    ModuleSeen(before + [s] + after, maxPages);
    SeenExactly(Inspect(EncodeModule(before + [s] + after), maxPages), s, maxPages);
  }

  lemma ModuleSeen(sections: seq<Section>, maxPages: nat)
    requires forall s | s in sections :: WellFormed(s)
    ensures var r, memory := Inspect(EncodeModule(sections), maxPages), LastMemory(sections);
      && PagesSeen(r) == memory
      && (r.Ok? <==> memory.None? || memory.value <= maxPages)
  {
    ModuleRoundTrips(sections, maxPages);
  }

  lemma SeenExactly(r: Result<Metadata>, s: Section, maxPages: nat)
    requires s.Memory? && s.count > 0 && maxPages < U32 && PagesSeen(r) == Some(Declared(s))
    requires r.Ok? <==> Declared(s) <= maxPages
    ensures PagesSeen(r) == Some(AtLeastOne(s.min)) <==> s.min < U32
    ensures (r.Ok? <==> AtLeastOne(s.min) <= maxPages) <==> (s.min < U32 || s.min % U32 > maxPages)
  {
  }

  lemma OversizedCode(code: seq<Byte>)
    requires code == [128, 128, 128, 128, 16]
    ensures IsLeb(code, U32)
  {
    assert code[4..] == [16] && LebValue([16]) == 16 + 128 * LebValue([16][1..]);
    assert code[3..][1..] == code[4..] && code[2..][1..] == code[3..] && code[1..][1..] == code[2..];
    assert LebValue(code[4..]) == 16;
    assert LebValue(code[3..]) == 128 * 16;
    assert LebValue(code[2..]) == 128 * 128 * 16;
    assert LebValue(code[1..]) == 128 * 128 * 128 * 16;
  }

  lemma OneGroup(n: Byte)
    requires n < 128
    ensures IsLeb([n], n)
  {
    assert LebValue([n][1..]) == 0;
  }

  /** A module of one memory section. */
  lemma OneMemory(s: Section, maxPages: nat)
    requires s.Memory? && WellFormed(s)
    ensures Inspect(HEADER + EncodeSection(s), maxPages) ==
      if Declared(s) > maxPages then Err(OverLimit(Declared(s)))
      else Ok(Metadata(1, Some(Declared(s)), 0, |HEADER + EncodeSection(s)|))
  {
    assert EncodeAll([s]) == EncodeSection(s) + EncodeAll([s][1..]) == EncodeSection(s);
    assert ExportSections([s]) == ExportSections([s][1..]) == 0;
    assert LastMemory([s][1..]) == None;
    ModuleRoundTrips([s], maxPages);
  }

  lemma OversizedBytes(code: seq<Byte>)
    requires code == [128, 128, 128, 128, 16]
    ensures EncodeSection(Memory([7], [1], 1, 0, code, U32, [])) == [5, 7, 1, 0, 128, 128, 128, 128, 16]
  {
  }

  /** A module that declares 2^32 pages is accepted under a limit of zero pages. */
  lemma OversizedModuleAccepted()
    ensures Inspect([0x00, 0x61, 0x73, 0x6D, 1, 0, 0, 0] + [5, 7, 1, 0, 128, 128, 128, 128, 16], 0)
         == Ok(Metadata(1, Some(0), 0, 17))
  {
    var code: seq<Byte> := [128, 128, 128, 128, 16];
    var s := Memory([7], [1], 1, 0, code, U32, []);
    OversizedCode(code);
    OneGroup(7);
    OneGroup(1);
    assert Content(s) == [1, 0] + code;
    OneMemory(s, 0);
    OversizedBytes(code);
  }

  /** What follows well-formed sections is scanned from where they end. */
  lemma ModuleTail(sections: seq<Section>, tail: seq<Byte>, maxPages: nat) returns (m: seq<Byte>, next: nat)
    requires forall s | s in sections :: WellFormed(s)
    ensures m == EncodeModule(sections) + tail && next <= |m| && At(m, next, tail)
    ensures Inspect(m, maxPages) == Judged(m, maxPages, Scan(m, next, NotedAll(Found(0, None), sections)))
  {
    m := EncodeModule(sections) + tail;
    assert m[..8] == HEADER && m[8..] == EncodeAll(sections) + tail;
    AtSuffix(m, 8);
    next := SectionsBefore(m, 8, sections, tail, Found(0, None));
    assert m[..4] == m[..8][..4];
  }

  /** A memory section without content says nothing about the memory. */
  lemma EmptyMemoryIgnored(sections: seq<Section>, maxPages: nat)
    requires forall s | s in sections :: WellFormed(s)
    ensures PagesSeen(Inspect(EncodeModule(sections) + [5, 0], maxPages)) == LastMemory(sections)
  {
    var m, next := ModuleTail(sections, [5, 0], maxPages);
    var f := NotedAll(Found(0, None), sections);
    EmptySection(m, next, f);
    NotedAllIs(Found(0, None), sections);
  }

  lemma EmptySection(bytes: seq<Byte>, pos: nat, f: Found)
    requires pos <= |bytes| && At(bytes, pos, [5, 0])
    ensures Scan(bytes, pos, f) == Ok(f)
  {
    OneGroup(0);
    assert [5, 0] == [5] + ([0] + ([] + []));
    RawSectionDecodes(bytes, pos, 5, [0], [], [], f);
    AtLength(bytes, pos, [5, 0]);
  }

  // ---------------------------------------------------------------- what is refused

  /** A section whose content is cut short is refused, whatever its kind. */
  lemma TruncatedRefused(sections: seq<Section>, id: Byte, code: seq<Byte>, n: nat, content: seq<Byte>, maxPages: nat)
    requires forall s | s in sections :: WellFormed(s)
    requires IsLeb(code, n) && |content| < n
    ensures Inspect(EncodeModule(sections) + ([id] + code + content), maxPages) == Err(SectionTooLong)
  {
    var m, next := ModuleTail(sections, [id] + code + content, maxPages);
    Regroup([id], code, content);
    AtSkip(m, next, [id], code + content);
    AtLength(m, next + 1, code + content);
    CodeLengthRead(m, next + 1, code, content, n);
  }

  /** A length of more than five groups is refused. */
  lemma LongLengthRefused(sections: seq<Section>, id: Byte, code: seq<Byte>, rest: seq<Byte>, maxPages: nat)
    requires forall s | s in sections :: WellFormed(s)
    requires |code| == 6 && forall k | 0 <= k < 5 :: code[k] >= 128
    ensures Inspect(EncodeModule(sections) + ([id] + code + rest), maxPages) == Err(LebOverflow)
  {
    var m, next := ModuleTail(sections, [id] + code + rest, maxPages);
    Regroup([id], code, rest);
    AtSkip(m, next, [id], code + rest);
    AtLength(m, next + 1, code + rest);
    LongLength(m, next + 1, code, rest, 0, 0);
  }

  lemma {:induction false} LongLength(bytes: seq<Byte>, pos: nat, code: seq<Byte>, rest: seq<Byte>, shift: nat, acc: nat)
    requires pos <= |bytes| && At(bytes, pos, code + rest)
    requires code != [] && shift + 7 * (|code| - 1) == 35 && forall k | 0 <= k < |code| - 1 :: code[k] >= 128
    ensures ReadLength(bytes, pos, shift, acc) == Overflow
    decreases |code|
  {
    assert code + rest == [code[0]] + (code[1..] + rest);
    AtSkip(bytes, pos, [code[0]], code[1..] + rest);
    if |code| > 1 {
      LongLength(bytes, pos + 1, code[1..], rest, shift + 7, Accumulate(acc, code[0], shift));
    }
  }

  // ---------------------------------------------------------------- what is accepted

  /** The bytes from `pos` up to `start` are one length code of at most `groups` groups; at the
      very end of the bytes the code may be left open. */
  ghost predicate CodeAt(bytes: seq<Byte>, pos: nat, start: nat, groups: nat) {
    && pos <= start <= |bytes| && start <= pos + groups
    && (forall k | pos <= k < start - 1 :: bytes[k] >= 128)
    && (start == |bytes| || (start > pos && bytes[start - 1] < 128))
  }

  lemma {:induction false} CodeIsRead(bytes: seq<Byte>, pos: nat, shift: nat, acc: nat, groups: nat, start: nat)
    requires shift + 7 * groups == 35 && CodeAt(bytes, pos, start, groups)
    ensures ReadLength(bytes, pos, shift, acc) == Leb(acc + LebValue(bytes[pos..start]) * Pow2(shift), start)
    decreases groups
  {
    if pos < start {
      var code := bytes[pos..start];
      if bytes[pos] >= 128 {
        assert code[1..] == bytes[pos + 1..start];
        GroupStep(code, shift, acc);
        CodeIsRead(bytes, pos + 1, shift + 7, Accumulate(acc, bytes[pos], shift), groups - 1, start);
      } else {
        LastGroup(code, shift, acc);
      }
    }
  }

  lemma LastGroup(code: seq<Byte>, shift: nat, acc: nat)
    requires |code| == 1
    ensures Accumulate(acc, code[0], shift) == acc + LebValue(code) * Pow2(shift)
  {
    assert code[1..] == [];
    GroupStep(code, shift, acc);
  }

  lemma {:induction false} ReadIsCode(bytes: seq<Byte>, pos: nat, shift: nat, acc: nat, groups: nat)
    requires shift + 7 * groups == 35 && pos <= |bytes| && ReadLength(bytes, pos, shift, acc).Leb?
    ensures CodeAt(bytes, pos, ReadLength(bytes, pos, shift, acc).next, groups)
    decreases groups
  {
    if pos < |bytes| && bytes[pos] >= 128 {
      ReadIsCode(bytes, pos + 1, shift + 7, Accumulate(acc, bytes[pos], shift), groups - 1);
    }
  }

  /** From `pos` on the bytes are sections, each with all the content its length promises; one
      byte may be left over at the end. */
  ghost predicate Tiled(bytes: seq<Byte>, pos: nat)
    requires pos <= |bytes|
    decreases |bytes| - pos
  {
    |bytes| - pos <= 1 || exists start: nat :: Fits(bytes, pos, start) && Tiled(bytes, EndOfSection(bytes, pos, start))
  }

  /** The section at `pos` has its content at `start`, and all of it. */
  ghost predicate Fits(bytes: seq<Byte>, pos: nat, start: nat) {
    CodeAt(bytes, pos + 1, start, 5) && start + LebValue(bytes[pos + 1..start]) <= |bytes|
  }

  ghost function EndOfSection(bytes: seq<Byte>, pos: nat, start: nat): nat
    requires Fits(bytes, pos, start)
  {
    start + LebValue(bytes[pos + 1..start])
  }

  lemma LengthIs(bytes: seq<Byte>, pos: nat, start: nat)
    requires pos <= |bytes| && CodeAt(bytes, pos, start, 5)
    ensures ReadLength(bytes, pos, 0, 0) == Leb(LebValue(bytes[pos..start]), start)
  {
    assert Pow2(0) == 1;
    CodeIsRead(bytes, pos, 0, 0, 5, start);
  }

  /** The first section of what is left, as the length loop reads it. */
  lemma TiledStep(bytes: seq<Byte>, pos: nat)
    requires |bytes| - pos > 1
    ensures Tiled(bytes, pos) <==>
      match ReadLength(bytes, pos + 1, 0, 0)
      case Overflow => false
      case Leb(n, start) => start + n <= |bytes| && Tiled(bytes, start + n)
  {
    if ReadLength(bytes, pos + 1, 0, 0).Leb? {
      ReadFits(bytes, pos);
    }
    if start: nat :| Fits(bytes, pos, start) && Tiled(bytes, EndOfSection(bytes, pos, start)) {
      FitsRead(bytes, pos, start);
    }
  }

  lemma ReadFits(bytes: seq<Byte>, pos: nat)
    requires |bytes| - pos > 1 && ReadLength(bytes, pos + 1, 0, 0).Leb?
    ensures var length := ReadLength(bytes, pos + 1, 0, 0);
      length.next + length.value <= |bytes| ==>
        Fits(bytes, pos, length.next) && EndOfSection(bytes, pos, length.next) == length.next + length.value
  {
    ReadIsCode(bytes, pos + 1, 0, 0, 5);
    LengthIs(bytes, pos + 1, ReadLength(bytes, pos + 1, 0, 0).next);
  }

  lemma FitsRead(bytes: seq<Byte>, pos: nat, start: nat)
    requires |bytes| - pos > 1 && Fits(bytes, pos, start)
    ensures ReadLength(bytes, pos + 1, 0, 0) == Leb(EndOfSection(bytes, pos, start) - start, start)
  {
    LengthIs(bytes, pos + 1, start);
  }

  lemma {:induction false} ScannedIff(bytes: seq<Byte>, pos: nat, f: Found)
    requires pos <= |bytes|
    ensures Scan(bytes, pos, f).Ok? <==> Tiled(bytes, pos)
    decreases |bytes| - pos
  {
    if |bytes| - pos > 1 {
      TiledStep(bytes, pos);
      var length := ReadLength(bytes, pos + 1, 0, 0);
      if length.Leb? && length.next + length.value <= |bytes| {
        var end := length.next + length.value;
        ScannedIff(bytes, end, Noted(f, bytes, bytes[pos], length.next, end));
      }
    }
  }

  lemma HeaderIff(bytes: seq<Byte>)
    requires |bytes| >= 8
    ensures bytes[..4] == HEADER[..4] <==> bytes[..4] == [0x00, 0x61, 0x73, 0x6D]
    ensures Version(bytes) == 1 <==> bytes[4..8] == [1, 0, 0, 0]
    ensures bytes[..8] == [0x00, 0x61, 0x73, 0x6D, 1, 0, 0, 0] <==>
      bytes[..4] == [0x00, 0x61, 0x73, 0x6D] && bytes[4..8] == [1, 0, 0, 0]
  {
    var version := bytes[4..8];
    assert HEADER[..4] == [0x00, 0x61, 0x73, 0x6D];
    assert version == [bytes[4], bytes[5], bytes[6], bytes[7]];
    assert version == [1, 0, 0, 0] <==> version[0] == 1 && version[1] == 0 && version[2] == 0 && version[3] == 0;
    assert bytes[..8] == bytes[..4] + version;
    assert [0x00, 0x61, 0x73, 0x6D, 1, 0, 0, 0] == [0x00, 0x61, 0x73, 0x6D] + [1, 0, 0, 0];
    assert bytes[..4] == bytes[..8][..4] && version == bytes[..8][4..];
  }

  /** On any bytes: the scan reaches the end, to be judged by the page limit alone, exactly when
      the header is the standard's and every section holds what it promises. */
  lemma ReachesTheLimitIff(bytes: seq<Byte>, maxPages: nat)
    ensures var r := Inspect(bytes, maxPages);
      && (r.Ok? || r.error.OverLimit? <==>
            |bytes| >= 8 && bytes[..8] == [0x00, 0x61, 0x73, 0x6D, 1, 0, 0, 0] && Tiled(bytes, 8))
      && (r.Ok? && r.value.memory.Some? ==> r.value.memory.value <= maxPages)
      && (r.Err? && r.error.OverLimit? ==> r.error.pages > maxPages)
  {
    if |bytes| >= 8 {
      HeaderIff(bytes);
      ScannedIff(bytes, 8, Found(0, None));
      if Scan(bytes, 8, Found(0, None)).Err? {
        ScanFaults(bytes, 8, Found(0, None));
      }
    }
  }

  lemma {:induction false} ScanFaults(bytes: seq<Byte>, pos: nat, f: Found)
    requires pos <= |bytes| && Scan(bytes, pos, f).Err?
    ensures Scan(bytes, pos, f).error.LebOverflow? || Scan(bytes, pos, f).error.SectionTooLong?
    decreases |bytes| - pos
  {
    var length := ReadLength(bytes, pos + 1, 0, 0);
    if length.Leb? && length.next + length.value <= |bytes| {
      var end := length.next + length.value;
      ScanFaults(bytes, end, Noted(f, bytes, bytes[pos], length.next, end));
    }
  }

  /** And what is wrong with the header of any other bytes. */
  lemma HeaderFaults(bytes: seq<Byte>, maxPages: nat)
    ensures Inspect(bytes, maxPages) == Err(TooSmall) <==> |bytes| < 8
    ensures Inspect(bytes, maxPages) == Err(BadMagic) <==> |bytes| >= 8 && bytes[..4] != [0x00, 0x61, 0x73, 0x6D]
    ensures (exists v :: Inspect(bytes, maxPages) == Err(BadVersion(v))) <==>
      |bytes| >= 8 && bytes[..4] == [0x00, 0x61, 0x73, 0x6D] && bytes[4..8] != [1, 0, 0, 0]
  {
    if |bytes| >= 8 {
      HeaderIff(bytes);
      if Scan(bytes, 8, Found(0, None)).Err? {
        ScanFaults(bytes, 8, Found(0, None));
      }
    }
  }
}
