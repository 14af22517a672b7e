/** `skip_trailing_space` of m_string.h: two fast forms and the byte-by-byte meaning they share. */
module SkipSpace {
  import opened Bytes
  import opened ByteOrder
  import opened HostOrder

  const SPACE: byte := 0x20

  predicate AllSpaces(s: seq<byte>) {
    forall i :: 0 <= i < |s| ==> s[i] == SPACE
  }

  /** The length of `s` without its trailing spaces. */
  function Stripped(s: seq<byte>): (k: nat)
    ensures k <= |s|
  {
    if s == [] || s[|s| - 1] != SPACE then |s| else Stripped(s[..|s| - 1])
  }

  /** It is the shortest prefix whose removed suffix is all spaces: a cut removes only spaces iff it is no shorter. */
  lemma {:induction false} StrippedIsShortest(s: seq<byte>, k: nat)
    requires k <= |s|
    ensures AllSpaces(s[k..]) <==> Stripped(s) <= k
  {
    if k == |s| {
    } else if s[|s| - 1] != SPACE {
      assert s[k..][|s| - 1 - k] == s[|s| - 1];
    } else {
      var t := s[..|s| - 1];
      StrippedIsShortest(t, k);
      assert s[k..] == t[k..] + [SPACE];
    }
  }

  /** Dropping spaces from the end does not change what is left in the end. */
  lemma DropSpaces(s: seq<byte>, k: nat)
    requires k <= |s| && AllSpaces(s[k..])
    ensures Stripped(s[..k]) == Stripped(s)
  {
    var a, b := Stripped(s), Stripped(s[..k]);
    StrippedIsShortest(s, k);
    StrippedIsShortest(s, a);
    StrippedIsShortest(s[..k], b);
    StrippedIsShortest(s[..k], a);
    StrippedIsShortest(s, b);
    assert s[..k][a..] == s[a..][..k - a];
    assert s[b..] == s[..k][b..] + s[k..];
  }

  // ---------------------------------------------------------------- words of spaces

  function Spaces(n: nat): (bs: seq<byte>)
    ensures |bs| == n && AllSpaces(bs)
  {
    if n == 0 then [] else [SPACE] + Spaces(n - 1)
  }

  const SPACES4: nat := 0x2020_2020
  const SPACES8: nat := 0x2020_2020_2020_2020

  lemma ValueOfSpaces()
    ensures Value(Spaces(4)) == SPACES4 && Value(Spaces(8)) == SPACES8
  {
  }

  lemma AllSpacesIsSpaces(bs: seq<byte>)
    ensures AllSpaces(bs) <==> bs == Spaces(|bs|)
  {
  }

  /** `uint8korr` gives the mask exactly on eight spaces. */
  lemma EightSpaces(m: seq<byte>, a: nat)
    requires a + 8 <= |m|
    ensures Uint8korr(m, a) == SPACES8 <==> AllSpaces(m[a..a + 8])
  {
    EightIsExact(m, a);
    ValueOfSpaces();
    AllSpacesIsSpaces(m[a..a + 8]);
    if Uint8korr(m, a) == SPACES8 { ValueIsInjective(m[a..a + 8], Spaces(8)); }
  }

  /** The sizes SIZEOF_INT may have. */
  predicate IntSize(size: nat) {
    size == 4 || size == 8
  }

  /** SPACE_INT for the size of `unsigned`. */
  function SpaceInt(size: nat): nat
    requires IntSize(size)
  {
    if size == 4 then SPACES4 else SPACES8
  }

  /** An aligned word is the mask exactly when it is all spaces, on hosts of either byte order. */
  lemma WordOfSpaces(h: Host, bs: seq<byte>)
    requires |bs| == 4 || |bs| == 8
    ensures Pattern(h, bs) == SpaceInt(|bs|) <==> AllSpaces(bs)
  {
    ValueOfSpaces();
    var low := if h.Little? then bs else Reverse(bs);
    AllSpacesIsSpaces(low);
    if Pattern(h, bs) == SpaceInt(|bs|) { ValueIsInjective(low, Spaces(|bs|)); }
    assert AllSpaces(low) <==> AllSpaces(bs) by {
      if AllSpaces(low) { forall i | 0 <= i < |bs| ensures bs[i] == SPACE { assert low[|bs| - 1 - i] == SPACE; } }
    }
  }

  // ---------------------------------------------------------------- the two forms

  /** The tail both forms end with; started at the end of the string it is the plain version. */
  method SkipBytes(s: seq<byte>, from: nat) returns (end: nat)
    requires from <= |s| && Stripped(s[..from]) == Stripped(s)
    ensures end == Stripped(s)
  {
    end := from;
    while end > 0 && s[end - 1] == SPACE
      invariant end <= |s| && Stripped(s[..end]) == Stripped(s)
    {
      assert s[..end][..end - 1] == s[..end - 1];
      end := end - 1;
    }
  }

  /** Eight bytes at a time, ignoring alignment. Positions are relative to `ptr`. */
  method SkipByEights(s: seq<byte>) returns (end: nat)
    ensures end == Stripped(s)
  {
    end := |s|;
    assert s[..end] == s;
    while end >= 8
      invariant end <= |s| && Stripped(s[..end]) == Stripped(s)
    {
      EightSpaces(s, end - 8);
      if Uint8korr(s, end - 8) != SPACES8 {
        break;
      }
      assert s[..end][end - 8..] == s[end - 8..end] && s[..end][..end - 8] == s[..end - 8];
      DropSpaces(s[..end], end - 8);
      end := end - 8;
    }
    end := SkipBytes(s, end);
  }

  predicate IsAligned(p: nat, size: nat)
    requires IntSize(size)
  {
    if size == 4 then p % 4 == 0 else p % 8 == 0
  }

  /** A word loaded from address `at` of the buffer `s` that starts at address `ptr`. */
  function LoadWord(h: Host, s: seq<byte>, ptr: nat, at: nat, size: nat): nat
    requires ptr <= at && at + size <= ptr + |s|
    requires IntSize(size) && IsAligned(at, size)
  {
    Pattern(h, s[at - ptr..at - ptr + size])
  }

  /** `p / SIZEOF_INT * SIZEOF_INT` in 64 bits: the edges of the aligned zone. */
  function AlignDown(p: nat, size: nat): nat
    requires IntSize(size)
  {
    if size == 4 then p / 4 * 4 else p / 8 * 8
  }

  function AlignUp(p: nat, size: nat): nat
    requires IntSize(size)
  {
    AlignDown(U64(p + size - 1), size)
  }

  lemma DownToFours(p: nat)
    ensures p - 4 < p / 4 * 4 <= p && p / 4 * 4 % 4 == 0
  {
  }

  lemma DownToEights(p: nat)
    ensures p - 8 < p / 8 * 8 <= p && p / 8 * 8 % 8 == 0
  {
  }

  lemma AlignedDown(p: nat, size: nat)
    requires IntSize(size)
    ensures p - size < AlignDown(p, size) <= p && IsAligned(AlignDown(p, size), size)
  {
    if size == 4 { DownToFours(p); } else { DownToEights(p); }
  }

  lemma AlignedZone(ptr: nat, len: nat, size: nat)
    requires IntSize(size) && ptr + len < TWO64 && len > 20
    ensures ptr < AlignDown(ptr + len, size) <= ptr + len && IsAligned(AlignDown(ptr + len, size), size)
    ensures ptr <= AlignUp(ptr, size) < ptr + size && IsAligned(AlignUp(ptr, size), size)
    ensures AlignUp(ptr, size) < AlignDown(ptr + len, size) && ptr + len < AlignDown(ptr + len, size) + size
  {
    Small(ptr + size - 1, TWO64);
    AlignedDown(ptr + len, size);
    AlignedDown(ptr + size - 1, size);
  }

  lemma FoursBelow(start: nat, end: nat)
    requires start < end && start % 4 == 0 && end % 4 == 0
    ensures start <= end - 4 && (end - 4) % 4 == 0
  {
  }

  lemma EightsBelow(start: nat, end: nat)
    requires start < end && start % 8 == 0 && end % 8 == 0
    ensures start <= end - 8 && (end - 8) % 8 == 0
  {
  }

  lemma AlignedBelow(start: nat, end: nat, size: nat)
    requires IntSize(size) && start < end && IsAligned(start, size) && IsAligned(end, size)
    ensures start <= end - size && IsAligned(end - size, size)
  {
    if size == 4 { FoursBelow(start, end); } else { EightsBelow(start, end); }
  }

  lemma AlignedAgain(w: nat, size: nat)
    requires IntSize(size) && IsAligned(w, size)
    ensures IsAligned(w + size, size)
  {
  }

  /** A word of spaces at the end can go. */
  lemma DropWord(h: Host, s: seq<byte>, k: nat, size: nat)
    requires IntSize(size) && k + size <= |s| && Pattern(h, s[k..k + size]) == SpaceInt(size)
    ensures Stripped(s[..k]) == Stripped(s[..k + size])
  {
    WordOfSpaces(h, s[k..k + size]);
    assert s[..k + size][k..] == s[k..k + size] && s[..k + size][..k] == s[..k];
    DropSpaces(s[..k + size], k);
  }

  /** Any other word holds back what lies below it. */
  lemma KeepWord(h: Host, s: seq<byte>, k: nat, size: nat)
    requires IntSize(size) && k + size <= |s| && Pattern(h, s[k..k + size]) != SpaceInt(size)
    ensures k < Stripped(s[..k + size])
  {
    WordOfSpaces(h, s[k..k + size]);
    assert s[..k + size][k..] == s[k..k + size];
    StrippedIsShortest(s[..k + size], k);
  }

  /** Whether `words` are just the aligned words between the addresses `low` and `high`. */
  ghost predicate WordsBetween(words: seq<nat>, low: nat, high: nat, size: nat)
    requires IntSize(size)
  {
    forall w: nat :: w in words <==> IsAligned(w, size) && low <= w && w + size <= high
  }

  lemma OneMoreWord(words: seq<nat>, low: nat, high: nat, size: nat)
    requires IntSize(size) && size <= low <= high && IsAligned(low, size) && WordsBetween(words, low, high, size)
    ensures IsAligned(low - size, size) && WordsBetween(words + [low - size], low - size, high, size)
  {
    AlignedBelow(0, low, size);
    forall w: nat | IsAligned(w, size) && low - size <= w && w != low - size ensures low <= w {
      AlignedBelow(low - size, w, size);
    }
  }

  /** The words that a scan down to `start` has looked at when it has kept `k` bytes. */
  ghost predicate WordsSeen(words: seq<nat>, ptr: nat, k: nat, start: nat, from: nat, size: nat)
    requires IntSize(size)
  {
    forall w: nat :: w in words <==> IsAligned(w, size) && start <= w && w + size <= from && ptr + k <= w + size
  }

  lemma SeenAreBetween(words: seq<nat>, ptr: nat, k: nat, start: nat, low: nat, from: nat, size: nat)
    requires IntSize(size) && IsAligned(low, size) && WordsBetween(words, low, from, size)
    requires start <= low && ptr + k <= low + size && (low == start || low < ptr + k)
    ensures WordsSeen(words, ptr, k, start, from, size)
  {
    forall w: nat | IsAligned(w, size) && start <= w && ptr + k <= w + size ensures low <= w {
      if w < low { AlignedBelow(w, low, size); }
    }
  }

  /** The aligned zone, backwards from address `from` down to `start`. */
  method SkipWords(h: Host, s: seq<byte>, ptr: nat, size: nat, start: nat, from: nat) returns (end: nat, words: seq<nat>)
    requires IntSize(size)
    requires ptr <= start <= from <= ptr + |s| && IsAligned(start, size) && IsAligned(from, size)
    ensures start <= end <= from && Stripped(s[..end - ptr]) == Stripped(s[..from - ptr])
    ensures WordsSeen(words, ptr, Stripped(s[..from - ptr]), start, from, size)
  {
    end, words := from, [];
    ghost var low := from;
    while end > start
      invariant start <= end <= from && IsAligned(end, size) && low == end
      invariant Stripped(s[..end - ptr]) == Stripped(s[..from - ptr])
      invariant WordsBetween(words, low, from, size)
    {
      AlignedBelow(start, end, size);
      var k := end - size - ptr;
      OneMoreWord(words, end, from, size);
      words := words + [end - size];
      low := end - size;
      if LoadWord(h, s, ptr, end - size, size) != SpaceInt(size) {
        KeepWord(h, s, k, size);
        break;
      }
      DropWord(h, s, k, size);
      end := end - size;
    }
    SeenAreBetween(words, ptr, Stripped(s[..from - ptr]), start, low, from, size);
  }

  /** The bytes above address `stop`, one at a time. */
  method SkipBytesTo(s: seq<byte>, stop: nat) returns (end: nat)
    requires 0 < stop <= |s|
    ensures stop <= end <= |s| && Stripped(s[..end]) == Stripped(s)
    ensures end == stop || s[end - 1] != SPACE
  {
    end := |s|;
    assert s[..end] == s;
    while end > stop && s[end - 1] == SPACE
      invariant stop <= end <= |s| && Stripped(s[..end]) == Stripped(s)
    {
      assert s[..end][..end - 1] == s[..end - 1];
      end := end - 1;
    }
  }

  /**
    The words that the three-zone form loads from: those with nothing but spaces after them, of which the
    topmost only if it ends in a space itself.
   */
  ghost predicate WordsLoaded(words: seq<nat>, s: seq<byte>, ptr: nat, size: nat)
    requires IntSize(size)
  {
    forall w: nat :: w in words <==>
      IsAligned(w, size) && ptr <= w && w + size <= ptr + |s| &&
      (ptr + Stripped(s) < w + size || (ptr + Stripped(s) == w + size && w + 2 * size <= ptr + |s|))
  }

  /** No aligned word that ends inside the buffer starts at or above the edge of the aligned zone. */
  lemma AlignedAbove(w: nat, top: nat, size: nat)
    requires IntSize(size) && IsAligned(w, size) && IsAligned(top, size) && w >= top
    ensures w == top || w >= top + size
  {
    if w > top { AlignedBelow(top, w, size); }
  }

  lemma NoWordsLoaded(s: seq<byte>, ptr: nat, size: nat, k: nat)
    requires IntSize(size) && |s| > 20 && ptr + |s| < TWO64
    requires Stripped(s) == k && ptr + k >= AlignDown(ptr + |s|, size)
    ensures WordsLoaded([], s, ptr, size)
  {
    var top := AlignDown(ptr + |s|, size);
    AlignedZone(ptr, |s|, size);
    forall w: nat | IsAligned(w, size) && w + size <= ptr + |s| ensures w + size <= top {
      if w >= top { AlignedAbove(w, top, size); } else { AlignedBelow(w, top, size); }
    }
  }

  lemma SeenAreLoaded(words: seq<nat>, s: seq<byte>, ptr: nat, size: nat)
    requires IntSize(size) && |s| > 20 && ptr + |s| < TWO64
    requires var top := AlignDown(ptr + |s|, size);
             ptr + Stripped(s) < top && WordsSeen(words, ptr, Stripped(s), AlignUp(ptr, size), top, size)
    ensures WordsLoaded(words, s, ptr, size)
  {
    var top, bottom := AlignDown(ptr + |s|, size), AlignUp(ptr, size);
    AlignedZone(ptr, |s|, size);
    forall w: nat | IsAligned(w, size) && ptr <= w && w + size <= ptr + |s|
      ensures bottom <= w && w + size <= top && (w + size < top ==> w + 2 * size <= ptr + |s|)
    {
      if w >= top { AlignedAbove(w, top, size); } else { AlignedBelow(w, top, size); }
      if w < bottom { AlignedBelow(w, bottom, size); }
      if w + size < top { AlignedAgain(w, size); AlignedBelow(w + size, top, size); }
    }
  }

  lemma LastByteDecides(s: seq<byte>, k: nat)
    requires 0 < k <= |s| && Stripped(s[..k]) == Stripped(s)
    ensures if s[k - 1] == SPACE then Stripped(s) < k else Stripped(s) == k
  {
  }

  /** The two upper zones of a string of more than 20 bytes: bytes down to the last word, then words. */
  method SkipUpperZones(h: Host, s: seq<byte>, ptr: nat, size: nat) returns (end: nat, words: seq<nat>)
    requires IntSize(size) && ptr + |s| < TWO64 && |s| > 20
    ensures ptr <= end <= ptr + |s| && Stripped(s[..end - ptr]) == Stripped(s)
    ensures WordsLoaded(words, s, ptr, size)
  {
    var endWords := AlignDown(ptr + |s|, size);
    var startWords := AlignUp(ptr, size);
    AlignedZone(ptr, |s|, size);
    var k := SkipBytesTo(s, endWords - ptr);
    end, words := ptr + k, [];
    LastByteDecides(s, k);
    if s[k - 1] == SPACE && startWords < endWords {
      end, words := SkipWords(h, s, ptr, size, startWords, end);
      SeenAreLoaded(words, s, ptr, size);
    } else {
      NoWordsLoaded(s, ptr, size, k);
    }
  }

  /**
    The three-zone form for buffers anywhere in memory, `size` being SIZEOF_INT. `words` lists the
    addresses it loads words from: aligned words inside the buffer, as many as there is need to.
   */
  method SkipAligned(h: Host, s: seq<byte>, ptr: nat, size: nat) returns (end: nat, words: seq<nat>)
    requires IntSize(size)
    requires ptr + |s| < TWO64
    ensures end == ptr + Stripped(s)
    ensures forall w: nat :: w in words <==>
              |s| > 20 && (if size == 4 then w % 4 == 0 else w % 8 == 0) && ptr <= w && w + size <= ptr + |s| &&
              (ptr + Stripped(s) < w + size || (ptr + Stripped(s) == w + size && w + 2 * size <= ptr + |s|))
  {
    end, words := ptr + |s|, [];
    assert s[..|s|] == s;
    if |s| > 20 {
      end, words := SkipUpperZones(h, s, ptr, size);
      assert WordsLoaded(words, s, ptr, size);
    }
    var left := SkipBytes(s, end - ptr);
    end := ptr + left;
  }
}
