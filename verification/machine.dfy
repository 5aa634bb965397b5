/** Machine words, physical pages and the flat physical memory shared by the
    kernel's components.

    Memory is indexed by byte address; `mem[a]`, for `a` a multiple of four, is
    the 32-bit word stored at `a`.  Every access the modelled components make is
    an aligned word access, so cells at other indices are never written. */
module Machine {

  const PAGE_SIZE := 4096
  const TOTAL_PAGES := 4096
  const MEM_SIZE := 0x100_0000

  type Byte = x: int | 0 <= x < 256
  type Word = x: int | 0 <= x < 0x1_0000_0000

  /** Unsigned 32-bit wrap-around. */
  function Wrap(x: int): Word {
    x % 0x1_0000_0000
  }

  /** The page number that address `a` lies in. */
  function PageOf(a: nat): nat {
    a / PAGE_SIZE
  }

  /** Two memories differ at most on the pages of `pages`. */
  ghost predicate DifferOnlyOn(m: seq<Word>, n: seq<Word>, pages: set<nat>) {
    && |m| == |n| == MEM_SIZE
    && forall a :: 0 <= a < MEM_SIZE && PageOf(a) !in pages ==> m[a] == n[a]
  }

  lemma MinExists(s: set<nat>)
    requires s != {}
    ensures exists m :: m in s && forall x :: x in s ==> m <= x
  {
    var x :| x in s;
    LeastBelow(s, x);
  }

  /** A set with an element at `x` has a least element. */
  lemma LeastBelow(s: set<nat>, x: nat)
    requires x in s
    ensures exists m :: m in s && forall y :: y in s ==> m <= y
    decreases x
  {
    if y :| y in s && y < x {
      LeastBelow(s, y);
    }
  }

  /** The least element of a nonempty set. */
  ghost function Min(s: set<nat>): (m: nat)
    requires s != {}
    ensures m in s && forall x :: x in s ==> m <= x
  {
    MinExists(s);
    var m :| m in s && forall x :: x in s ==> m <= x;
    m
  }

  // ---------- little-endian fields ----------

  function Le16(b: seq<Byte>, i: nat): Word
    requires i + 2 <= |b|
  {
    (b[i] as int) + 0x100 * (b[i + 1] as int)
  }

  function Le32(b: seq<Byte>, i: nat): Word
    requires i + 4 <= |b|
  {
    (b[i] as int) + 0x100 * (b[i + 1] as int) + 0x1_0000 * (b[i + 2] as int) + 0x100_0000 * (b[i + 3] as int)
  }

  // ---------- C strings and optional values ----------

  datatype Option<T> = None | Some(value: T)

  /** `buffer` begins with `s` and then `nul`, which `s` does not contain. */
  ghost predicate CString<T>(buffer: seq<T>, s: seq<T>, nul: T) {
    |s| < |buffer| && buffer[..|s|] == s && buffer[|s|] == nul && forall i :: 0 <= i < |s| ==> s[i] != nul
  }

  lemma CharAt<T>(buffer: seq<T>, s: seq<T>, nul: T, i: nat)
    requires CString(buffer, s, nul) && i <= |s|
    ensures i < |buffer| && buffer[i] == (if i < |s| then s[i] else nul) && (buffer[i] == nul <==> i == |s|)
  {
    if i < |s| {
      assert buffer[..|s|][i] == s[i];
    }
  }
}
