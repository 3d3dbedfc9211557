/**
 * The djb2 string hash of util/hash.c: start at 5381 and fold every byte
 * of a NUL-terminated string with `h * 33 + c`, in `unsigned long`
 * (64-bit) arithmetic that wraps around.
 */
module Hash {

  /** 2^64: `unsigned long` arithmetic is taken modulo this. */
  const WORD: nat := 0x1_0000_0000_0000_0000

  /** The seed of the fold. */
  const SEED: nat := 5381

  /** A C `char` seen as a byte: the model only admits characters 0..255. */
  predicate IsByte(c: char) {
    c as int < 256
  }

  predicate IsBytes(s: seq<char>) {
    forall i | 0 <= i < |s| :: IsByte(s[i])
  }

  /** A C string as the program handles it: bytes, none of them NUL. */
  predicate IsCString(s: seq<char>) {
    forall i | 0 <= i < |s| :: '\0' < s[i] && IsByte(s[i])
  }

  /** One step of the fold, in the multiplicative form the source comments. */
  function Step(h: nat, c: char): (r: nat)
    requires h < WORD
    ensures r < WORD
  {
    (h * 33 + c as int) % WORD
  }

  /** The fold of `s` started from `h`, first byte first. */
  function Fold(h: nat, s: seq<char>): (r: nat)
    requires h < WORD
    ensures r < WORD
    decreases |s|
  {
    if s == [] then h else Fold(Step(h, s[0]), s[1..])
  }

  /**
   * djb2 of a sequence that holds no terminator. A character is folded
   * in by its code; for the bytes 1..255 of a C string this is the byte.
   */
  function Djb2(s: seq<char>): nat {
    Fold(SEED, s)
  }

  /** The part of a buffer that `hash1` reads: everything before the first NUL. */
  function CStr(buf: seq<char>): (r: seq<char>)
    ensures r <= buf
    ensures '\0' !in r
    ensures |r| < |buf| ==> buf[|r|] == '\0'
  {
    if buf == [] || buf[0] == '\0' then [] else [buf[0]] + CStr(buf[1..])
  }

  /** Left shift by five of an `unsigned long`. */
  function Shl5(h: nat): (r: nat)
    requires h < WORD
    ensures r < WORD
  {
    (h * 32) % WORD
  }

  /** The hash of the empty string is the seed. */
  lemma EmptyIsSeed()
    ensures Djb2([]) == 5381
  {
  }

  /** Appending one byte performs one more step on the previous hash. */
  lemma {:induction false} FoldAppend(h: nat, s: seq<char>, c: char)
    requires h < WORD
    ensures Fold(h, s + [c]) == Step(Fold(h, s), c)
    decreases |s|
  {
    if s == [] {
      assert [] + [c] == [c];
    } else {
      assert (s + [c])[1..] == s[1..] + [c];
      FoldAppend(Step(h, s[0]), s[1..], c);
    }
  }

  /** `hash1(s ++ c) == hash1(s) * 33 + c` modulo 2^64. */
  lemma Djb2Append(s: seq<char>, c: char)
    ensures Djb2(s + [c]) == (Djb2(s) * 33 + c as int) % WORD
  {
    FoldAppend(SEED, s, c);
  }

  /** The shift-and-add form of the source computes the same step. */
  lemma ShiftFormAgrees(h: nat, c: char)
    requires h < WORD
    ensures (Shl5(h) + h + c as int) % WORD == Step(h, c)
  {
    var q := (h * 32) / WORD;
    assert h * 32 == q * WORD + Shl5(h);
    assert Shl5(h) + h + c as int == h * 33 + c as int - q * WORD;
    ModShift(h * 33 + c as int, q);
  }

  lemma ModShift(x: int, q: int)
    ensures (x - q * WORD) % WORD == x % WORD
  {
  }

  /** Bytes after the first NUL never reach the fold. */
  lemma StopsAtNul(s: seq<char>, t: seq<char>)
    requires '\0' !in s
    ensures CStr(s + ['\0'] + t) == s
  {
    assert (s + ['\0'] + t)[|s|] == '\0';
  }

  /**
   * `hash1`: the while loop of the source, walking the buffer up to its
   * first NUL (or its end, which stands for the terminator) and updating
   * the running hash in the shift form.
   */
  method Hash1(buf: seq<char>) returns (h: nat)
    ensures h == Djb2(CStr(buf))
    ensures h < WORD
  {
    h := SEED;
    var i := 0;
    while i < |buf| && buf[i] != '\0'
      invariant 0 <= i <= |buf|
      invariant '\0' !in buf[..i]
      invariant h == Djb2(buf[..i])
    {
      var c := buf[i];
      ShiftFormAgrees(h, c);
      Djb2Append(buf[..i], c);
      assert buf[..i + 1] == buf[..i] + [c];
      h := (Shl5(h) + h + c as int) % WORD;
      i := i + 1;
    }
    assert buf[..i] == CStr(buf) by {
      if i < |buf| {
        assert buf == buf[..i] + ['\0'] + buf[i + 1..];
        StopsAtNul(buf[..i], buf[i + 1..]);
      } else {
        assert buf[..i] == buf;
        CStrOfNulFree(buf);
      }
    }
  }

  lemma {:induction false} CStrOfNulFree(s: seq<char>)
    requires '\0' !in s
    ensures CStr(s) == s
  {
    if s != [] {
      CStrOfNulFree(s[1..]);
    }
  }
}
