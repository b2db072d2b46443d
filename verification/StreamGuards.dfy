/** The guards of the stream interface, in the widths the code computes them. */
module StreamGuards {
  import opened Words

  /** The sizes of the typed fields: char, word, long and quad. */
  type Width = w: nat | w == 1 || w == 2 || w == 4 || w == 8 witness 1

  /**
   The number of unread bytes as the read guards see it: converted to a signed 32-bit int, which is
   then compared as an unsigned 64-bit size.
   */
  function Readable(unread: Long): Long {
    var low := unread % WORD_RANGE;
    if low < 0x8000_0000 then low else low + LONG_RANGE - WORD_RANGE
  }

  /** The guard of a read of `n` bytes. */
  predicate ReadAdmitted(unread: Long, n: Long) {
    n <= Readable(unread)
  }

  /** The guard admits exactly the reads that are in bounds iff the conversion keeps the count. */
  lemma ReadGuardIsExact(unread: Long)
    ensures (forall n: Long :: ReadAdmitted(unread, n) <==> n <= unread)
       <==> unread < 0x8000_0000 || unread >= LONG_RANGE - 0x8000_0000
  {
    ReadGuardOverruns(unread);
    ReadGuardRefuses(unread);
  }

  /** It admits some read past the unread bytes iff the converted count is negative and grows. */
  lemma ReadGuardOverruns(unread: Long)
    ensures (exists n: Long :: ReadAdmitted(unread, n) && n > unread)
       <==> unread % WORD_RANGE >= 0x8000_0000 && unread < LONG_RANGE - 0x8000_0000
  {
    var (low, high) := (unread % WORD_RANGE, unread / WORD_RANGE);
    assert unread == high * WORD_RANGE + low;
    assert Readable(unread) > unread <==> low >= 0x8000_0000 && unread < LONG_RANGE - 0x8000_0000;
    assert ReadAdmitted(unread, Readable(unread));
  }

  /** It refuses some read of unread bytes iff the converted count is not negative and shrinks. */
  lemma ReadGuardRefuses(unread: Long)
    ensures (exists n: Long :: !ReadAdmitted(unread, n) && n <= unread)
       <==> unread % WORD_RANGE < 0x8000_0000 && unread >= WORD_RANGE
  {
    var low := unread % WORD_RANGE;
    assert Readable(unread) < unread <==> low < 0x8000_0000 && unread >= WORD_RANGE;
    assert !ReadAdmitted(unread, unread) <==> Readable(unread) < unread;
  }

  /** A read of one byte refused with 2^32 unread, and one of 2^28 bytes too many admitted. */
  lemma ReadGuardCanFail()
    ensures !ReadAdmitted(WORD_RANGE, 1)
    ensures ReadAdmitted(0x8000_0000, 0x9000_0000)
  {
  }

  /** So many bytes are unread that their number, converted, looks too small for the field. */
  predicate Obscured(unread: nat, width: Width) {
    unread >= WORD_RANGE && unread % WORD_RANGE < width
  }

  /** A typed get passes its guard iff the bytes are there and their number is not obscured. */
  lemma SmallReadsAreGuarded(unread: Long, width: Width)
    ensures ReadAdmitted(unread, width) <==> width <= unread && !Obscured(unread, width)
  {
  }

  /** The guard of positions: an end `at + n`, computed on 64 bits, against a limit. */
  predicate PositionAdmitted(limit: Long, at: Long, n: Long) {
    (at + n) % LONG_RANGE <= limit
  }

  /** A position passes iff it is within the limit, or wraps to within it. */
  lemma PositionGuard(limit: Long, at: Long, n: Long)
    ensures PositionAdmitted(limit, at, n) <==> at + n <= limit || LONG_RANGE <= at + n <= LONG_RANGE + limit
    ensures at + n < LONG_RANGE ==> (PositionAdmitted(limit, at, n) <==> at + n <= limit)
  {
  }

  /** What the size check of the block puts makes of a request; the sum is computed on 64 bits. */
  function Truncated(endp: Long, size: Long, requested: Long): Long
    requires endp <= size
  {
    if (endp + requested) % LONG_RANGE > size then size - endp else requested
  }

  /** A block put is accepted iff its end does not wrap, and then writes what fits. */
  lemma BlockPutAccepted(endp: Long, size: Long, requested: Long)
    requires endp <= size
    ensures Truncated(endp, size, requested) <= size - endp <==> endp + requested < LONG_RANGE
    ensures endp + requested < LONG_RANGE ==>
      Truncated(endp, size, requested) == if requested <= size - endp then requested else size - endp
  {
  }
}
