/** What every key types, stated by the rows of a US keyboard rather than by the
    driver's tables. */
module KeyboardLayout {
  import opened Machine
  import opened KeyboardSpec

  /** The characters of a key without and with shift; a NUL for a key without any. */
  function KeyChars(k: Byte): (char, char) {
    if 0x02 <= k <= 0x0D then ("1234567890-="[k - 0x02], "!@#$%^&*()_+"[k - 0x02])
    else if k == 0x0F then ('\t', '\t')
    else if 0x10 <= k <= 0x1B then ("qwertyuiop[]"[k - 0x10], "QWERTYUIOP{}"[k - 0x10])
    else if k == 0x1C then ('\n', '\n')
    else if 0x1E <= k <= 0x29 then ("asdfghjkl;'`"[k - 0x1E], "ASDFGHJKL:\"~"[k - 0x1E])
    else if 0x2B <= k <= 0x35 then ("\\zxcvbnm,./"[k - 0x2B], "|ZXCVBNM<>?"[k - 0x2B])
    else if k == 0x37 then ('*', '*')
    else if k == 0x39 then (' ', ' ')
    else if 0x47 <= k <= 0x53 then ("789-456+1230."[k - 0x47], "789-456+1230."[k - 0x47])
    else ('\0', '\0')
  }

  predicate TypesLetter(k: Byte) {
    'a' <= KeyChars(k).0 <= 'z'
  }

  /** What a scancode types in a state of shift and caps lock: backspace and escape
      their control characters; a letter key its capital when exactly one of the two is
      on; any other key its shifted character when shift is on.  Releases and modifier
      keys type nothing. */
  function Types(shift: bool, caps: bool, k: Byte): char {
    if k == 0x0E then 8 as char
    else if k == 0x01 then 27 as char
    else if (if TypesLetter(k) then shift != caps else shift) then KeyChars(k).1
    else KeyChars(k).0
  }

  /** The tables at one key. */
  predicate TablesAgree(k: Byte) {
    && Lookup(PLAIN, k) == KeyChars(k).0 && Lookup(SHIFTED, k) == KeyChars(k).1
    && (TypesLetter(k) <==> LetterKey(k))
  }

  lemma NumberRowAgrees(k: Byte, row: nat, column: nat)
    requires k == 8 * row + column && row < 2 && column < 8 && k != 0x0E && k != 0x01
    ensures TablesAgree(k)
  {
    assert row in [0, 1] && column in [0, 1, 2, 3, 4, 5, 6, 7];
  }

  lemma UpperRowAgrees(k: Byte, row: nat, column: nat)
    requires k == 8 * row + column && 2 <= row < 4 && column < 8
    ensures TablesAgree(k)
  {
    assert row in [2, 3] && column in [0, 1, 2, 3, 4, 5, 6, 7];
  }

  lemma MiddleRowAgrees(k: Byte, row: nat, column: nat)
    requires k == 8 * row + column && 4 <= row < 6 && column < 8
    ensures TablesAgree(k)
  {
    assert row in [4, 5] && column in [0, 1, 2, 3, 4, 5, 6, 7];
  }

  lemma LowerRowAgrees(k: Byte, row: nat, column: nat)
    requires k == 8 * row + column && 6 <= row < 8 && column < 8
    ensures TablesAgree(k)
  {
    assert row in [6, 7] && column in [0, 1, 2, 3, 4, 5, 6, 7];
  }

  lemma KeypadAgrees(k: Byte, row: nat, column: nat)
    requires k == 8 * row + column && 8 <= row < 11 && column < 8
    ensures TablesAgree(k)
  {
    assert row in [8, 9, 10] && column in [0, 1, 2, 3, 4, 5, 6, 7];
  }

  lemma AllAgree(k: Byte)
    requires k < 88 && k != 0x0E && k != 0x01
    ensures TablesAgree(k)
  {
    hide TablesAgree;
    var row, column := k / 8, k % 8;
    if row < 2 {
      NumberRowAgrees(k, row, column);
    } else if row < 4 {
      UpperRowAgrees(k, row, column);
    } else if row < 6 {
      MiddleRowAgrees(k, row, column);
    } else if row < 8 {
      LowerRowAgrees(k, row, column);
    } else {
      KeypadAgrees(k, row, column);
    }
  }

  /** Every scancode types what the layout says, whatever the modifiers. */
  lemma PressTypes(m: Mods, k: Byte)
    ensures Translate(m, k).1 == Types(m.shift, m.caps, k)
  {
    if k < 88 && k != 0x0E && k != 0x01 {
      AllAgree(k);
      hide PLAIN, SHIFTED, Lookup;
    } else {
      hide PLAIN, SHIFTED;
    }
  }

  /** So after any history of scancodes since the driver started, what a key types is
      decided by the last shift event and the number of caps-lock presses. */
  lemma TypesAfterHistory(codes: seq<Byte>, k: Byte)
    ensures Translate(ModsRun(Mods(false, false, false, false), codes), k).1 ==
      Types(LastIsPress(false, {0x2A, 0x36}, codes), CapsPresses(codes) % 2 == 1, k)
  {
    hide Translate, Types;
    var m := Mods(false, false, false, false);
    ModsFollowHistory(m, codes);
    PressTypes(ModsRun(m, codes), k);
  }

  // ---------- from keys to the reader ----------

  /** The scancodes among the events of a run. */
  function Codes(evs: seq<Event>): seq<Byte> {
    if evs == [] then []
    else Codes(evs[..|evs| - 1]) + match evs[|evs| - 1] { case Irq(k) => [k] case ReaderStep => [] }
  }

  /** The characters that scancodes since the driver started type, by the layout. */
  function Text(codes: seq<Byte>): string {
    if codes == [] then []
    else
      var before, k := codes[..|codes| - 1], codes[|codes| - 1];
      var c := Types(LastIsPress(false, {0x2A, 0x36}, before), CapsPresses(before) % 2 == 1, k);
      Text(before) + if c == '\0' then [] else [c]
  }

  /** The modifiers after the events. */
  function ModsOf(m: Mods, evs: seq<Event>): Mods
    decreases |evs|
  {
    if evs == [] then m else ModsOf(ModsAfter(m, evs[0]), evs[1..])
  }

  lemma {:induction false} TypedSnoc(m: Mods, evs: seq<Event>, ev: Event)
    ensures Typed(m, evs + [ev]) == Typed(m, evs) + TypedBy(ModsOf(m, evs), ev)
    ensures ModsOf(m, evs + [ev]) == ModsAfter(ModsOf(m, evs), ev)
    decreases |evs|
  {
    hide TypedBy, ModsAfter;
    var all := evs + [ev];
    if evs == [] {
      assert all[1..] == [];
      assert TypedBy(m, ev) + [] == [] + TypedBy(m, ev);
    } else {
      assert all[1..] == evs[1..] + [ev];
      TypedSnoc(ModsAfter(m, evs[0]), evs[1..], ev);
    }
  }

  lemma {:induction false} ModsOfIs(m: Mods, evs: seq<Event>)
    ensures ModsOf(m, evs) == ModsRun(m, Codes(evs))
  {
    hide ModsRun, Translate;
    if evs == [] {
      NoCodes(m);
    } else {
      var most, last := evs[..|evs| - 1], evs[|evs| - 1];
      assert evs == most + [last];
      ModsOfIs(m, most);
      TypedSnoc(m, most, last);
      if last.Irq? {
        ModsRunSnoc(m, Codes(most), last.scancode);
      } else {
        assert Codes(most) + [] == Codes(most);
      }
    }
  }

  lemma NoCodes(m: Mods)
    ensures ModsRun(m, []) == m
  {
  }

  /** What a run types is what the layout makes of its scancodes. */
  lemma {:induction false} TypedIsText(evs: seq<Event>)
    ensures Typed(Mods(false, false, false, false), evs) == Text(Codes(evs))
  {
    hide Translate, Types, ModsRun, ModsOf;
    if evs != [] {
      var m, most, last := Mods(false, false, false, false), evs[..|evs| - 1], evs[|evs| - 1];
      assert evs == most + [last];
      TypedIsText(most);
      TypedSnoc(m, most, last);
      ModsOfIs(m, most);
      if last.Irq? {
        TypesAfterHistory(Codes(most), last.scancode);
        assert Codes(evs)[..|Codes(evs)| - 1] == Codes(most);
      } else {
        assert Codes(evs) == Codes(most);
        assert Typed(m, most) + [] == Typed(m, most);
      }
    }
  }

  /** Whatever the interleaving with the reader: from the empty ring, with no key coming
      while 255 characters wait, exactly the text of the keys enters the ring, and what
      has been read is a prefix of it. */
  lemma ReaderGetsText(r: Ring, evs: seq<Event>)
    requires Inv(r) && r.mods == Mods(false, false, false, false) && r.accepted == [] && NeverFull(r, evs)
    ensures Run(r, evs).accepted == Text(Codes(evs)) && Run(r, evs).returned <= Text(Codes(evs))
  {
    hide Run, Typed, Text, NeverFull, Codes;
    NothingLost(r, evs);
    TypedIsText(evs);
    ReturnedIsPrefix(r, evs);
    assert [] + Text(Codes(evs)) == Text(Codes(evs));
  }
}
