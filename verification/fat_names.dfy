/** 8.3 short names: the eleven padded bytes of a directory entry and the string
    form users type. */
module FatNames {
  import opened Machine

  const SPACE: Byte := 0x20
  const DOT: Byte := 0x2E

  type Name = n: seq<Byte> | |n| == 11 witness [0, 0, 0, 0, 0, 0, 0, 0, 0, 0, 0]

  /** Length of the longest prefix of `s` that avoids both bytes. */
  function Span(s: seq<Byte>, a: Byte, b: Byte): (k: nat)
    ensures k <= |s|
    ensures forall i :: 0 <= i < k ==> s[i] != a && s[i] != b
    ensures k < |s| ==> s[k] == a || s[k] == b
  {
    if s == [] || s[0] == a || s[0] == b then 0 else 1 + Span(s[1..], a, b)
  }

  function Pad(s: seq<Byte>, n: nat): (r: seq<Byte>)
    ensures |r| == n
  {
    if |s| >= n then s[..n] else s + seq(n - |s|, _ => SPACE)
  }

  /** The part of a padded field before its first space. */
  function Trim(field: seq<Byte>): seq<Byte> {
    field[..Span(field, SPACE, SPACE)]
  }

  /** What `fat32_name_to_string` writes before the terminating NUL. */
  function ToString(n: Name): seq<Byte> {
    Trim(n[..8]) + if n[8] != SPACE then [DOT] + Trim(n[8..]) else []
  }

  /** What `fat32_string_to_name` makes of a string (NUL not included). */
  function FromString(s: seq<Byte>): Name {
    var dot := Span(s, DOT, DOT);
    var ext := if dot < |s| then s[dot + 1..] else [];
    Pad(if dot > 8 then s[..8] else s[..dot], 8) + Pad(ext, 3)
  }

  /** `k` is how many bytes of `field` come before the first `stop`. */
  predicate Until(field: seq<Byte>, stop: char, k: nat) {
    k <= |field| && (forall i :: 0 <= i < k ==> field[i] != stop as int) && (k < |field| ==> field[k] == stop as int)
  }

  lemma SpanUnique(s: seq<Byte>, a: Byte, b: Byte, k: nat)
    requires k <= |s| && forall i :: 0 <= i < k ==> s[i] != a && s[i] != b
    requires k < |s| ==> s[k] == a || s[k] == b
    ensures Span(s, a, b) == k
  {
  }

  /** The string shown for a stored name: the base up to its first space and, when
      there is an extension, a dot and the extension up to its first space. */
  lemma ShownIs(n: Name, base: nat, ext: nat)
    requires Until(n[..8], ' ', base) && Until(n[8..], ' ', ext)
    ensures ToString(n) == n[..base] + if ext > 0 then ['.' as int] + n[8..8 + ext] else []
  {
    hide Span;
    SpanUnique(n[..8], SPACE, SPACE, base);
    SpanUnique(n[8..], SPACE, SPACE, ext);
    assert n[..8][..base] == n[..base] && n[8..][..ext] == n[8..8 + ext];
    assert n[8..][0] == n[8];
  }

  /** The name a string is stored under: its first eight bytes before the first dot,
      the first three after it, and spaces. */
  lemma ConvertedIs(s: seq<Byte>, dot: nat, i: nat)
    requires Until(s, '.', dot) && i < 11
    ensures FromString(s)[i] ==
      if i < 8 then (if i < dot then s[i] else ' ' as int)
      else (if dot + 1 + (i - 8) < |s| then s[dot + 1 + (i - 8)] else ' ' as int)
  {
    hide Span;
    SpanUnique(s, DOT, DOT, dot);
    var base, ext := if dot > 8 then s[..8] else s[..dot], if dot < |s| then s[dot + 1..] else [];
    assert FromString(s) == Pad(base, 8) + Pad(ext, 3);
    if i < 8 {
      assert FromString(s)[i] == Pad(base, 8)[i];
    } else {
      assert FromString(s)[i] == Pad(ext, 3)[i - 8];
    }
  }

  // ---------- canonical forms ----------

  /** Padding only at the end. */
  predicate Padded(field: seq<Byte>) {
    forall i, j :: 0 <= i <= j < |field| && field[i] == SPACE ==> field[j] == SPACE
  }

  predicate Clean(s: seq<Byte>) {
    forall i :: 0 <= i < |s| ==> s[i] != DOT && s[i] != 0
  }

  predicate CanonicalName(n: Name) {
    Clean(n) && Padded(n[..8]) && Padded(n[8..])
  }

  predicate Part(s: seq<Byte>, max: nat) {
    |s| <= max && Clean(s) && forall i :: 0 <= i < |s| ==> s[i] != SPACE
  }

  /** A base of up to eight bytes, and optionally a dot and up to three more. */
  predicate CanonicalString(s: seq<Byte>) {
    var dot := Span(s, DOT, DOT);
    Part(s[..dot], 8) && (dot < |s| ==> dot + 1 < |s| && Part(s[dot + 1..], 3))
  }

  // ---------- round trips ----------

  lemma PadTrim(field: seq<Byte>)
    requires Padded(field)
    ensures Pad(Trim(field), |field|) == field
  {
    var k := Span(field, SPACE, SPACE);
    forall i | k <= i < |field|
      ensures field[i] == SPACE
    {
      assert field[k] == SPACE;
    }
  }

  lemma TrimPad(s: seq<Byte>, n: nat)
    requires |s| <= n && forall i :: 0 <= i < |s| ==> s[i] != SPACE
    ensures Trim(Pad(s, n)) == s && Padded(Pad(s, n))
  {
    var k := Span(Pad(s, n), SPACE, SPACE);
    assert forall i :: 0 <= i < n ==> Pad(s, n)[i] == if i < |s| then s[i] else SPACE;
    assert |s| < n ==> Pad(s, n)[|s|] == SPACE;
    assert k == |s|;
  }

  lemma SpanConcat(base: seq<Byte>, rest: seq<Byte>)
    requires forall i :: 0 <= i < |base| ==> base[i] != DOT
    requires rest != [] ==> rest[0] == DOT
    ensures Span(base + rest, DOT, DOT) == |base|
  {
    var k := Span(base + rest, DOT, DOT);
    assert rest != [] ==> (base + rest)[|base|] == DOT;
    assert forall i :: 0 <= i < |base| ==> (base + rest)[i] == base[i];
  }

  /** A stored name comes back from its string form. */
  lemma NameRoundTrip(n: Name)
    requires CanonicalName(n)
    ensures FromString(ToString(n)) == n
  {
    var base, ext := Trim(n[..8]), Trim(n[8..]);
    var rest := if n[8] != SPACE then [DOT] + ext else [];
    var s := base + rest;
    assert forall i :: 0 <= i < |base| ==> base[i] == n[i];
    SpanConcat(base, rest);
    PadTrim(n[..8]);
    PadTrim(n[8..]);
    assert s[..|base|] == base;
    if n[8] != SPACE {
      assert s[|base| + 1..] == ext;
    } else {
      assert ext == [];
    }
    assert n == n[..8] + n[8..];
  }

  /** The stored names that survive the way to a string and back. */
  predicate RoundTrips(n: Name) {
    Padded(n[..8]) && Padded(n[8..]) && DOT !in n[..8]
  }

  /** Whatever the string, the base it converts to is padded and has no dot. */
  lemma ConvertedBase(s: seq<Byte>)
    requires SPACE !in s[..Span(s, DOT, DOT)]
    ensures Padded(FromString(s)[..8]) && DOT !in FromString(s)[..8]
  {
    var dot := Span(s, DOT, DOT);
    var base := if dot > 8 then s[..8] else s[..dot];
    assert FromString(s)[..8] == Pad(base, 8);
    hide Span;
    assert forall i :: 0 <= i < |base| ==> base[i] == s[..dot][i];
    TrimPad(base, 8);
  }

  lemma NoDotNoSpace(n: Name)
    ensures var s := ToString(n); SPACE !in s[..Span(s, DOT, DOT)]
  {
    var base, s := Trim(n[..8]), ToString(n);
    var dot := Span(s, DOT, DOT);
    assert |base| < |s| ==> s[|base|] == DOT;
    assert forall i :: 0 <= i < dot ==> s[..dot][i] == base[i];
  }

  /** Without a dot in the base the string's own dot separates the two fields. */
  lemma NoDotConverts(n: Name)
    requires DOT !in n[..8]
    ensures FromString(ToString(n)) == Pad(Trim(n[..8]), 8) + Pad(if n[8] != SPACE then Trim(n[8..]) else [], 3)
  {
    var base, ext := Trim(n[..8]), Trim(n[8..]);
    var rest := if n[8] != SPACE then [DOT] + ext else [];
    var s := base + rest;
    assert forall i :: 0 <= i < |base| ==> base[i] == n[..8][i];
    SpanConcat(base, rest);
    assert s[..|base|] == base;
    if n[8] != SPACE {
      assert s[|base| + 1..] == ext;
    }
  }

  /** A stored name comes back from its string form if and only if both fields
      are padded at the end only and the base has no dot. */
  lemma NameRoundTripIff(n: Name)
    ensures FromString(ToString(n)) == n <==> RoundTrips(n)
  {
    hide FromString, ToString, Span;
    NoDotNoSpace(n);
    ConvertedBase(ToString(n));
    assert n == n[..8] + n[8..];
    if DOT !in n[..8] {
      NoDotConverts(n);
      var ext := if n[8] != SPACE then Trim(n[8..]) else [];
      var m := FromString(ToString(n));
      assert m[..8] == Pad(Trim(n[..8]), 8) && m[8..] == Pad(ext, 3);
      ExtPadded(n);
      if RoundTrips(n) {
        PadTrim(n[..8]);
      }
    }
  }

  lemma ExtPadded(n: Name)
    ensures Pad(if n[8] != SPACE then Trim(n[8..]) else [], 3) == n[8..] <==> Padded(n[8..])
  {
    var ext := n[8..];
    assert n[8] == SPACE ==> Trim(ext) == [];
    if Padded(ext) {
      PadTrim(ext);
    } else {
      TrimPad(Trim(ext), 3);
    }
  }

  /** A canonical string comes back from its stored form. */
  lemma StringRoundTrip(s: seq<Byte>)
    requires CanonicalString(s)
    ensures ToString(FromString(s)) == s
  {
    var dot := Span(s, DOT, DOT);
    var base := s[..dot];
    var ext := if dot < |s| then s[dot + 1..] else [];
    TrimPad(base, 8);
    TrimPad(ext, 3);
    PadBegins(ext);
    assert s == if dot < |s| then base + ([DOT] + ext) else base + [];
    hide Span, Pad, Trim;
    TwoFields(Pad(base, 8), Pad(ext, 3));
  }

  lemma PadBegins(ext: seq<Byte>)
    requires |ext| <= 3 && forall i :: 0 <= i < |ext| ==> ext[i] != SPACE
    ensures Pad(ext, 3)[0] != SPACE <==> ext != []
  {
  }

  lemma TwoFields(base: seq<Byte>, ext: seq<Byte>)
    requires |base| == 8 && |ext| == 3
    ensures var n := base + ext; n[..8] == base && n[8..] == ext && n[8] == ext[0]
  {
  }

  /** The string form and its NUL fit in thirteen bytes. */
  lemma StringFits(n: Name)
    ensures |ToString(n)| + 1 <= 13
  {
  }

  // ---------- strncmp ----------

  /** `strncmp` of the kernel on two fields of at least `n` bytes. */
  function Strncmp(s: seq<Byte>, t: seq<Byte>, n: nat): int
    requires n <= |s| && n <= |t|
  {
    if n == 0 then 0
    else if s[0] != 0 && s[0] == t[0] then Strncmp(s[1..], t[1..], n - 1)
    else (s[0] as int) - (t[0] as int)
  }

  /** Against a field without NUL, zero means full equality. */
  lemma {:induction false} StrncmpZeroIff(s: seq<Byte>, t: seq<Byte>, n: nat)
    requires n <= |s| && n <= |t| && forall i :: 0 <= i < n ==> t[i] != 0
    ensures Strncmp(s, t, n) == 0 <==> s[..n] == t[..n]
  {
    if n > 0 {
      assert s[..n] == [s[0]] + s[1..][..n - 1] && t[..n] == [t[0]] + t[1..][..n - 1];
      if s[0] == t[0] {
        StrncmpZeroIff(s[1..], t[1..], n - 1);
      } else {
        assert s[..n][0] != t[..n][0];
      }
    }
  }

  lemma ConvertedHasNoNul(s: seq<Byte>)
    requires forall i :: 0 <= i < |s| ==> s[i] != 0
    ensures forall i :: 0 <= i < 11 ==> FromString(s)[i] != 0
  {
  }

  /** The comparison `fat32_open` makes: zero exactly when the stored name is the
      converted one. */
  lemma MatchIffEqual(n: Name, s: seq<Byte>)
    requires forall i :: 0 <= i < |s| ==> s[i] != 0
    ensures Strncmp(n, FromString(s), 11) == 0 <==> n == FromString(s)
  {
    ConvertedHasNoNul(s);
    StrncmpZeroIff(n, FromString(s), 11);
    assert n[..11] == n && FromString(s)[..11] == FromString(s);
  }

  /** What a reader of a C string sees of the bytes in it. */
  function Text(s: seq<Byte>): seq<Byte> {
    s[..Span(s, 0, 0)]
  }

  lemma StringKeepsNul(n: Name)
    requires 0 !in n
    ensures 0 !in ToString(n) && Text(ToString(n)) == ToString(n)
  {
    var base, ext, s := Trim(n[..8]), Trim(n[8..]), ToString(n);
    assert forall i :: 0 <= i < |base| ==> base[i] == n[i];
    assert forall i :: 0 <= i < |ext| ==> ext[i] == n[8 + i];
  }

  /** Passing the shown string of a stored name back to the kernel names the same
      entry if and only if the name round-trips and has no NUL. */
  lemma ReopenIff(n: Name)
    ensures FromString(Text(ToString(n))) == n <==> RoundTrips(n) && 0 !in n
    ensures 0 !in Text(ToString(n))
  {
    hide FromString, ToString, RoundTrips;
    var s := Text(ToString(n));
    if 0 in n {
      ConvertedHasNoNul(s);
      var i :| 0 <= i < 11 && n[i] == 0;
      assert FromString(s)[i] != 0;
    } else {
      StringKeepsNul(n);
      NameRoundTripIff(n);
    }
  }

  // ---------- the conversions as the kernel computes them ----------

  /** Appends the bytes of `name[lo..hi]` before its first space. */
  method CopyField(name: Name, lo: nat, hi: nat, output: array<Byte>, start: nat) returns (j: nat)
    requires lo <= hi <= 11 && start + (hi - lo) < output.Length
    modifies output
    ensures start <= j <= start + (hi - lo) && output[..j] == old(output[..start]) + Trim(name[lo..hi])
    ensures forall k :: j <= k < output.Length ==> output[k] == old(output[k])
  {
    hide Span;
    var i := lo;
    j := start;
    while i < hi && name[i] != SPACE
      invariant lo <= i <= hi && j == start + (i - lo)
      invariant forall k :: lo <= k < i ==> name[k] != SPACE
      invariant forall k :: start <= k < j ==> output[k] == name[lo + (k - start)]
      invariant forall k :: 0 <= k < output.Length && !(start <= k < j) ==> output[k] == old(output[k])
    {
      output[j] := name[i];
      j := j + 1;
      i := i + 1;
    }
    SpanUnique(name[lo..hi], SPACE, SPACE, i - lo);
    assert Trim(name[lo..hi]) == name[lo..i];
    assert output[..j] == old(output[..start]) + name[lo..i];
  }

  /** `fat32_name_to_string`. */
  method NameToString(name: Name, output: array<Byte>) returns (length: nat)
    requires output.Length >= 13
    modifies output
    ensures length < 13 && output[..length] == ToString(name) && output[length] == 0
    ensures forall k :: length < k < output.Length ==> output[k] == old(output[k])
  {
    hide Span;
    var j := CopyField(name, 0, 8, output, 0);
    assert name[0..8] == name[..8];
    ghost var base := Trim(name[..8]);
    assert output[..j] == base;
    if name[8] != SPACE {
      output[j] := DOT;
      j := j + 1;
      assert output[..j] == base + [DOT];
      j := CopyField(name, 8, 11, output, j);
      assert name[8..11] == name[8..];
      assert base + [DOT] + Trim(name[8..11]) == base + ([DOT] + Trim(name[8..]));
    }
    output[j] := 0;
    length := j;
  }

  /** Copies `s[from..]` into `fat[lo..]`, at most `max` bytes, stopping at a NUL or `stop`. */
  method FillField(input: seq<Byte>, ghost s: seq<Byte>, from: nat, stop: Byte, fat: array<Byte>, lo: nat, max: nat)
    requires CString(input, s, 0) && from <= |s| && lo + max <= fat.Length
    requires forall k :: lo <= k < lo + max ==> fat[k] == SPACE
    modifies fat
    ensures forall k :: 0 <= k < fat.Length && !(lo <= k < lo + max) ==> fat[k] == old(fat[k])
    ensures fat[lo..lo + max] == Pad(s[from..][..Span(s[from..], stop, 0)], max)
  {
    hide CString, Span;
    ghost var t := s[from..];
    var i := 0;
    CharAt(input, s, 0, from);
    while i < max && input[from + i] != 0 && input[from + i] != stop
      invariant 0 <= i <= max && i <= |t| && from + i < |input|
      invariant input[from + i] == (if i < |t| then t[i] else 0) && (input[from + i] == 0 <==> i == |t|)
      invariant forall k :: 0 <= k < i ==> t[k] != 0 && t[k] != stop
      invariant forall k :: lo <= k < lo + i ==> fat[k] == t[k - lo]
      invariant forall k :: lo + i <= k < lo + max ==> fat[k] == SPACE
      invariant forall k :: 0 <= k < fat.Length && !(lo <= k < lo + max) ==> fat[k] == old(fat[k])
    {
      fat[lo + i] := input[from + i];
      i := i + 1;
      CharAt(input, s, 0, from + i);
    }
    ghost var k := Span(t, stop, 0);
    StopsAt(t, stop, i, max);
    FieldIs(fat[lo..lo + max], t[..k], i, max);
  }

  lemma FieldIs(field: seq<Byte>, t: seq<Byte>, i: nat, max: nat)
    requires |field| == max && i <= max && i <= |t| && (if i < max then |t| == i else |t| >= max)
    requires field[..i] == t[..i] && forall k :: i <= k < max ==> field[k] == SPACE
    ensures field == Pad(t, max)
  {
    forall k | 0 <= k < max
      ensures field[k] == Pad(t, max)[k]
    {
      if k < i {
        assert field[..i][k] == t[..i][k];
      }
    }
  }

  lemma StopsAt(t: seq<Byte>, stop: Byte, i: nat, max: nat)
    requires i <= max && i <= |t| && forall k :: 0 <= k < i ==> t[k] != 0 && t[k] != stop
    requires i == max || i == |t| || t[i] == 0 || t[i] == stop
    ensures var k := Span(t, stop, 0); if i < max then k == i else k >= max
  {
  }

  /** `fat32_string_to_name`, on a buffer holding the C string `s`. */
  method StringToName(input: seq<Byte>, ghost s: seq<Byte>) returns (name: Name)
    requires CString(input, s, 0)
    ensures name == FromString(s)
  {
    var fat := new Byte[11](_ => SPACE);
    ghost var dot := Span(s, DOT, DOT);
    FillField(input, s, 0, DOT, fat, 0, 8);
    var ext := FindDot(input, s);
    SpanNoNul(s, DOT);
    hide Span, CString;
    assert s[0..] == s;
    ghost var base := Pad(if dot > 8 then s[..8] else s[..dot], 8);
    assert fat[0..8] == base;
    if input[ext] == DOT {
      ext := ext + 1;
      ghost var e := s[dot + 1..];
      FillField(input, s, ext, 0, fat, 8, 3);
      SpanNoNul(e, 0);
      assert e[..|e|] == e;
      assert fat[8..8 + 3] == Pad(e, 3);
    } else {
      assert fat[8..8 + 3] == Pad([], 3);
    }
    assert fat[0..8] == base;
    assert fat[..] == fat[0..8] + fat[8..8 + 3];
    name := fat[..];
  }

  /** The scan for the extension. */
  method FindDot(input: seq<Byte>, ghost s: seq<Byte>) returns (ext: nat)
    requires CString(input, s, 0)
    ensures ext == Span(s, DOT, DOT) && ext < |input| && (input[ext] == DOT <==> ext < |s|)
  {
    ghost var dot := Span(s, DOT, DOT);
    ext := 0;
    CharAt(input, s, 0, 0);
    while input[ext] != 0 && input[ext] != DOT
      invariant 0 <= ext <= dot && ext < |input|
      invariant input[ext] == (if ext < |s| then s[ext] else 0) && (input[ext] == 0 <==> ext == |s|)
      decreases dot - ext
    {
      ext := ext + 1;
      CharAt(input, s, 0, ext);
    }
  }

  lemma SpanNoNul(s: seq<Byte>, a: Byte)
    requires forall i :: 0 <= i < |s| ==> s[i] != 0
    ensures Span(s, a, 0) == Span(s, a, a)
    ensures a == 0 ==> Span(s, a, a) == |s|
  {
    SpanUnique(s, a, 0, Span(s, a, a));
  }

  /** `strncmp`. */
  method CompareNames(a: seq<Byte>, b: seq<Byte>, n: nat) returns (r: int)
    requires n <= |a| && n <= |b|
    ensures r == Strncmp(a, b, n)
  {
    var i := 0;
    while i < n && a[i] != 0 && a[i] == b[i]
      invariant 0 <= i <= n && Strncmp(a, b, n) == Strncmp(a[i..], b[i..], n - i)
    {
      assert a[i..][1..] == a[i + 1..] && b[i..][1..] == b[i + 1..];
      i := i + 1;
    }
    if i == n {
      return 0;
    }
    return (a[i] as int) - (b[i] as int);
  }
}
