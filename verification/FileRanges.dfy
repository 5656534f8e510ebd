/** The byte ranges of `sendFile`, with its mixture of signed and unsigned lengths. */
module FileRanges {
  import opened Numbers

  function RangeStart(from: int): nat { if from > 0 then from else 0 }

  /** The number of bytes `sendFile` sets out to send, as the unsigned number it compares with. */
  function RangeLength(size: nat, from: int, to: int): int {
    var rest := size - RangeStart(from);
    var n := if to > 0 then rest - (size - to - 1) else rest;
    if n < 0 then n + SIZE_T else n
  }

  predicate RangeRefused(size: nat, from: int, to: int) {
    (from > 0 && from >= size) || (to > 0 && to > size)
  }

  function RangeEnd(size: nat, from: int, to: int): int {
    var end := RangeStart(from) + RangeLength(size, from, to);
    if end <= size then end else size
  }

  /** The size of a file is a signed 64-bit number. */
  type FileBytes = content: string | |content| < SIZE_T / 2 witness ""

  /** What the file part of the response is. */
  function FilePart(content: FileBytes, from: int, to: int): string
    requires !RangeRefused(|content|, from, to)
  {
    RangeBounds(|content|, from, to);
    content[RangeStart(from)..RangeEnd(|content|, from, to)]
  }

  lemma RangeBounds(size: nat, from: int, to: int)
    requires !RangeRefused(size, from, to) && size < SIZE_T
    ensures 0 <= RangeLength(size, from, to) && RangeStart(from) <= RangeEnd(size, from, to) <= size
  {
  }

  /** A range inside the file: what is announced and sent is the inclusive range `from`..`to`, if
      and only if `to` is positive or the file has one byte. An end of 0 counts as no end. */
  lemma InclusiveRange(content: FileBytes, from: nat, to: nat)
    requires from <= to < |content|
    ensures !RangeRefused(|content|, from, to)
    ensures (RangeLength(|content|, from, to) == to - from + 1 && FilePart(content, from, to) == content[from..to + 1])
            <==> to > 0 || |content| == 1
  {
    assert content[..|content|] == content;
  }

  /** The range ends inside the file. */
  predicate RangeFits(size: nat, from: int, to: int) { RangeStart(from) + RangeLength(size, from, to) <= size }

  /** The exact condition: what is sent has the announced length unless `to` is the file size
      itself, which the range check lets pass, or lies before the start by more than one. */
  lemma RangeExact(content: FileBytes, from: int, to: int)
    requires !RangeRefused(|content|, from, to)
    ensures |FilePart(content, from, to)| == RangeLength(|content|, from, to) <==> RangeFits(|content|, from, to)
    ensures RangeFits(|content|, from, to) <==> to <= 0 || RangeStart(from) - 1 <= to < |content|
    ensures FilePart(content, from, to) == "" ==> RangeFits(|content|, from, to)
  {
  }

  /** The two failing ranges: the end "0" of a file of two bytes, and an end that is the file size. */
  lemma RangeWitness()
    ensures FilePart("ab", 0, 0) == "ab" && RangeLength(2, 0, 0) == 2
    ensures FilePart("ab", 0, 2) == "ab" && RangeLength(2, 0, 2) == 3
  {
    assert "ab"[0..2] == "ab";
  }

  /** Accepted ranges: the start, if there is one, is in the file, and the end is at most its size. */
  lemma AcceptedExactly(size: nat, from: nat, to: nat)
    ensures !RangeRefused(size, from, to) <==> (from == 0 || from < size) && to <= size
  {
  }
}
