/**
 * `read_memory_by_pid`: reading `n` bytes of the debuggee's memory one
 * machine word at a time. The word read (`ptrace::read`) is the parameter
 * `peek`, which gives the word's bytes in memory order, or nothing when the
 * read fails.
 */
module Memory {
  import opened Wrappers
  import opened Addresses
  import VariableIr

  type Byte = VariableIr.Byte

  /** `size_of::<c_long>()` on a 64-bit Linux target. */
  const WORD_SIZE: nat := 8

  type Word = s: seq<Byte> | |s| == WORD_SIZE witness [0, 0, 0, 0, 0, 0, 0, 0]

  /** The address of the `i`-th word from `addr` (`addr.offset(i)` on a `*mut c_long`). */
  function WordAddress(addr: Usize, i: nat): Usize {
    (addr + WORD_SIZE * i) % USIZE_LIMIT
  }

  /** The bytes of the first `count` words from `addr`, if every one of them can be read. */
  function ReadWords(peek: Usize -> Option<Word>, addr: Usize, count: nat): (r: Option<seq<Byte>>)
    ensures r.Some? <==> forall i :: 0 <= i < count ==> peek(WordAddress(addr, i)).Some?
    ensures r.Some? ==> |r.value| == WORD_SIZE * count
  {
    if count == 0 then Some([])
    else
      var prefix := ReadWords(peek, addr, count - 1);
      var last := peek(WordAddress(addr, count - 1));
      if prefix.None? || last.None? then None else Some(prefix.value + last.value)
  }

  /** Byte `k` of the words read is byte `k % 8` of word `k / 8`. */
  lemma {:induction false} ReadWordsByte(peek: Usize -> Option<Word>, addr: Usize, count: nat, k: nat)
    requires ReadWords(peek, addr, count).Some? && k < WORD_SIZE * count
    ensures ReadWords(peek, addr, count).value[k] == peek(WordAddress(addr, k / WORD_SIZE)).value[k % WORD_SIZE]
  {
    var prefix := ReadWords(peek, addr, count - 1);
    if k >= WORD_SIZE * (count - 1) {
      assert k / WORD_SIZE == count - 1;
    } else {
      ReadWordsByte(peek, addr, count - 1, k);
    }
  }

  /** The number of words needed for `n` bytes, `⌈n / 8⌉`. */
  function WordsFor(n: nat): (w: nat)
    ensures WORD_SIZE * w >= n && (w > 0 ==> WORD_SIZE * (w - 1) < n)
  {
    (n + WORD_SIZE - 1) / WORD_SIZE
  }

  /** Reading one more word appends its bytes. */
  lemma ReadOneMore(peek: Usize -> Option<Word>, addr: Usize, i: nat, w: Word)
    requires ReadWords(peek, addr, i).Some? && peek(WordAddress(addr, i)) == Some(w)
    ensures ReadWords(peek, addr, i + 1) == Some(ReadWords(peek, addr, i).value + w)
  {
  }

  /** The next word's address is 8 bytes on, wrapping around. */
  lemma NextWordAddress(addr: Usize, i: nat)
    requires WORD_SIZE * i < USIZE_LIMIT
    ensures (WordAddress(addr, i) + WORD_SIZE) % USIZE_LIMIT == WordAddress(addr, i + 1)
  {
    var x := addr + WORD_SIZE * i;
    if x < USIZE_LIMIT {
      assert WordAddress(addr, i) == x;
    } else {
      assert WordAddress(addr, i) == x - USIZE_LIMIT;
      assert WordAddress(addr, i + 1) == x + WORD_SIZE - USIZE_LIMIT;
    }
  }

  /**
   * `read_memory_by_pid(pid, addr, n)`: read words from `addr` on while
   * bytes remain, keeping of each word only the bytes still wanted. A
   * failed word read fails the whole read. `n` must fit an `isize`, as the
   * result vector's capacity must.
   */
  method ReadMemoryByPid(peek: Usize -> Option<Word>, addr: Usize, n: nat) returns (r: Option<seq<Byte>>)
    requires n < 0x8000_0000_0000_0000
    ensures var words := ReadWords(peek, addr, WordsFor(n));
            r == if words.Some? then Some(words.value[..n]) else None
  {
    var remainder: int := n;
    var result: seq<Byte> := [];
    var a := addr;
    ghost var i: nat := 0;
    while remainder > 0
      invariant i <= WordsFor(n) && remainder == n - WORD_SIZE * i
      invariant a == WordAddress(addr, i)
      invariant ReadWords(peek, addr, i).Some?
      invariant remainder > 0 ==> result == ReadWords(peek, addr, i).value
      invariant remainder <= 0 ==> result == ReadWords(peek, addr, i).value[..n]
      decreases remainder
    {
      var value := peek(a);
      if value.None? {
        return None;
      }
      var take := if remainder < WORD_SIZE then remainder else WORD_SIZE;
      ReadOneMore(peek, addr, i, value.value);
      ghost var before := result;
      result := result + value.value[..take];
      if remainder <= WORD_SIZE {
        assert result == (before + value.value)[..n];
      } else {
        assert value.value[..take] == value.value;
      }
      remainder := remainder - WORD_SIZE;
      NextWordAddress(addr, i);
      a := (a + WORD_SIZE) % USIZE_LIMIT;
      i := i + 1;
    }
    assert i == WordsFor(n);
    return Some(result);
  }

  /** A successful read gives exactly `n` bytes. */
  lemma ReadLength(peek: Usize -> Option<Word>, addr: Usize, n: nat)
    requires ReadWords(peek, addr, WordsFor(n)).Some?
    ensures |ReadWords(peek, addr, WordsFor(n)).value[..n]| == n
  {
  }

  /** Byte `k` of a successful read is byte `k % 8` of the word at `addr + 8 * (k / 8)`. */
  lemma ReadContent(peek: Usize -> Option<Word>, addr: Usize, n: nat, k: nat)
    requires ReadWords(peek, addr, WordsFor(n)).Some? && k < n
    ensures ReadWords(peek, addr, WordsFor(n)).value[..n][k] == peek(WordAddress(addr, k / WORD_SIZE)).value[k % WORD_SIZE]
  {
    ReadWordsByte(peek, addr, WordsFor(n), k);
  }

  /** Reading no bytes reads no word and succeeds. */
  lemma ReadNothing(peek: Usize -> Option<Word>, addr: Usize)
    ensures WordsFor(0) == 0 && ReadWords(peek, addr, WordsFor(0)) == Some([])
  {
  }
}
