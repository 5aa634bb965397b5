/** Scancode translation and the keyboard ring buffer as a system of interleaved
    steps: the interrupt handler may run between any two memory accesses of the
    reader. */
module KeyboardSpec {
  import opened Machine

  const KB_BUFFER_SIZE := 256
  const KEY_ESCAPE := 0x01
  const KEY_BACKSPACE := 0x0E
  const KEY_LCTRL := 0x1D
  const KEY_LSHIFT := 0x2A
  const KEY_RSHIFT := 0x36
  const KEY_LALT := 0x38
  const KEY_CAPSLOCK := 0x3A
  const KEY_RELEASE := 0x80
  const NUL := '\0'

  // ---------- translation ----------

  datatype Mods = Mods(shift: bool, ctrl: bool, alt: bool, caps: bool)

  /** US layout, eight scancodes a row. */
  const PLAIN: seq<string> := [
    "\0\0123456", "7890-=\0\t", "qwertyui", "op[]\n\0as",
    "dfghjkl;", "'`\0\\zxcv", "bnm,./\0*", "\0 \0\0\0\0\0\0",
    "\0\0\0\0\0\0\07", "89-456+1", "230.\0\0\0\0"
  ]

  const SHIFTED: seq<string> := [
    "\0\0!@#$%^", "&*()_+\0\t", "QWERTYUI", "OP{}\n\0AS",
    "DFGHJKL:", "\"~\0|ZXCV", "BNM<>?\0*", "\0 \0\0\0\0\0\0",
    "\0\0\0\0\0\0\07", "89-456+1", "230.\0\0\0\0"
  ]

  const TABLE_SIZE := 88

  function Lookup(table: seq<string>, scancode: Byte): char {
    if scancode / 8 < |table| && scancode % 8 < |table[scancode / 8]| then table[scancode / 8][scancode % 8] else NUL
  }

  predicate LetterKey(scancode: Byte) {
    0x10 <= scancode <= 0x19 || 0x1E <= scancode <= 0x26 || 0x2C <= scancode <= 0x32
  }

  /** `translate_scancode`: the new modifier state and the character, NUL for none. */
  function Translate(m: Mods, scancode: Byte): (Mods, char) {
    if scancode >= KEY_RELEASE then
      var released := scancode - KEY_RELEASE;
      (if released == KEY_LSHIFT || released == KEY_RSHIFT then m.(shift := false)
       else if released == KEY_LCTRL then m.(ctrl := false)
       else if released == KEY_LALT then m.(alt := false)
       else m, NUL)
    else if scancode == KEY_LSHIFT || scancode == KEY_RSHIFT then (m.(shift := true), NUL)
    else if scancode == KEY_LCTRL then (m.(ctrl := true), NUL)
    else if scancode == KEY_LALT then (m.(alt := true), NUL)
    else if scancode == KEY_CAPSLOCK then (m.(caps := !m.caps), NUL)
    else if scancode == KEY_BACKSPACE then (m, '\U{0008}')
    else if scancode == KEY_ESCAPE then (m, '\U{001B}')
    else if scancode < TABLE_SIZE then
      var useShift := if LetterKey(scancode) then m.shift != m.caps else m.shift;
      (m, Lookup(if useShift then SHIFTED else PLAIN, scancode))
    else (m, NUL)
  }

  // ---------- the ring ----------

  /** Where the reader stands inside `keyboard_getchar`. */
  datatype Reader =
    | Idle
    | HasTail(tail: nat)          // has read kb_tail for the emptiness test
    | Fetch                       // found a character, about to read the buffer
    | Advance(c: char)            // has the character, about to read kb_tail again
    | Store(c: char, next: nat)   // about to write kb_tail and return

  /** `accepted` and `returned` record what entered and left the ring. */
  datatype Ring = Ring(buffer: seq<char>, head: nat, tail: nat, reader: Reader,
                       mods: Mods, accepted: seq<char>, returned: seq<char>)

  datatype Event = Irq(scancode: Byte) | ReaderStep

  predicate Full(r: Ring) {
    (r.head + 1) % KB_BUFFER_SIZE == r.tail
  }

  /** `keyboard_irq_handler`, which runs with interrupts off. */
  function IrqStep(r: Ring, scancode: Byte): Ring
    requires |r.buffer| == KB_BUFFER_SIZE && r.head < KB_BUFFER_SIZE
  {
    var (mods, c) := Translate(r.mods, scancode);
    if c == NUL || Full(r) then r.(mods := mods)
    else r.(mods := mods, buffer := r.buffer[r.head := c], head := (r.head + 1) % KB_BUFFER_SIZE,
            accepted := r.accepted + [c])
  }

  /** One memory access of `keyboard_getchar`. */
  function ReadStep(r: Ring): Ring
    requires |r.buffer| == KB_BUFFER_SIZE && r.tail < KB_BUFFER_SIZE
  {
    match r.reader
    case Idle => r.(reader := HasTail(r.tail))
    case HasTail(t) => if t == r.head then r.(reader := Idle) else r.(reader := Fetch)
    case Fetch => r.(reader := Advance(r.buffer[r.tail]))
    case Advance(c) => r.(reader := Store(c, (r.tail + 1) % KB_BUFFER_SIZE))
    case Store(c, next) => r.(reader := Idle, tail := next, returned := r.returned + [c])
  }

  function Step(r: Ring, ev: Event): Ring
    requires |r.buffer| == KB_BUFFER_SIZE && r.head < KB_BUFFER_SIZE && r.tail < KB_BUFFER_SIZE
  {
    match ev
    case Irq(scancode) => IrqStep(r, scancode)
    case ReaderStep => ReadStep(r)
  }

  /** Characters accepted and not yet returned. */
  function Pending(r: Ring): seq<char> {
    if |r.returned| <= |r.accepted| then r.accepted[|r.returned|..] else []
  }

  /** The slot `k` places after `tail`. */
  function At(tail: nat, k: nat): (i: nat)
    ensures i < KB_BUFFER_SIZE
  {
    (tail + k) % KB_BUFFER_SIZE
  }

  /** The buffer holds `cs` from `tail` on. */
  ghost predicate Queued(buffer: seq<char>, tail: nat, cs: seq<char>) {
    |buffer| == KB_BUFFER_SIZE && forall k :: 0 <= k < |cs| ==> buffer[At(tail, k)] == cs[k]
  }

  lemma AtIs(tail: nat, k: nat)
    requires tail < KB_BUFFER_SIZE && k <= KB_BUFFER_SIZE
    ensures At(tail, k) == if tail + k < KB_BUFFER_SIZE then tail + k else tail + k - KB_BUFFER_SIZE
  {
  }

  lemma Slots(tail: nat, j: nat, k: nat)
    requires tail < KB_BUFFER_SIZE && j < KB_BUFFER_SIZE && k < KB_BUFFER_SIZE
    ensures At(tail, j) == At(tail, k) <==> j == k
    ensures At(At(tail, 1), k) == At(tail, k + 1) && At(tail, 0) == tail
  {
    hide At;
    AtIs(tail, 0);
    AtIs(tail, 1);
    AtIs(tail, j);
    AtIs(tail, k);
    AtIs(tail, k + 1);
    AtIs(At(tail, 1), k);
  }

  lemma QueuedAppend(buffer: seq<char>, tail: nat, cs: seq<char>, c: char)
    requires Queued(buffer, tail, cs) && tail < KB_BUFFER_SIZE && |cs| < KB_BUFFER_SIZE
    ensures Queued(buffer[At(tail, |cs|) := c], tail, cs + [c])
  {
    var buffer', cs' := buffer[At(tail, |cs|) := c], cs + [c];
    forall k | 0 <= k < |cs'|
      ensures buffer'[At(tail, k)] == cs'[k]
    {
      Slots(tail, k, |cs|);
    }
  }

  lemma QueuedPop(buffer: seq<char>, tail: nat, cs: seq<char>)
    requires Queued(buffer, tail, cs) && tail < KB_BUFFER_SIZE && 0 < |cs| < KB_BUFFER_SIZE
    ensures Queued(buffer, At(tail, 1), cs[1..]) && buffer[tail] == cs[0]
  {
    Slots(tail, 0, 0);
    forall k | 0 <= k < |cs[1..]|
      ensures buffer[At(At(tail, 1), k)] == cs[1..][k]
    {
      Slots(tail, k, k);
    }
  }

  ghost predicate ReaderOk(r: Ring) {
    match r.reader
    case Idle => true
    case HasTail(t) => t == r.tail
    case Fetch => Pending(r) != []
    case Advance(c) => Pending(r) != [] && c == Pending(r)[0]
    case Store(c, next) => Pending(r) != [] && c == Pending(r)[0] && next == At(r.tail, 1)
  }

  ghost predicate Inv(r: Ring) {
    && |r.buffer| == KB_BUFFER_SIZE && r.head < KB_BUFFER_SIZE && r.tail < KB_BUFFER_SIZE
    && r.returned <= r.accepted
    && |Pending(r)| < KB_BUFFER_SIZE && r.head == At(r.tail, |Pending(r)|)
    && Queued(r.buffer, r.tail, Pending(r))
    && ReaderOk(r)
  }

  lemma FullIff(r: Ring)
    requires Inv(r)
    ensures Full(r) <==> |Pending(r)| == KB_BUFFER_SIZE - 1
    ensures r.head == r.tail <==> Pending(r) == []
  {
  }

  lemma IrqKeepsInv(r: Ring, scancode: Byte)
    requires Inv(r)
    ensures Inv(IrqStep(r, scancode))
  {
    hide Translate, Queued;
    FullIff(r);
    QueuedAppend(r.buffer, r.tail, Pending(r), Translate(r.mods, scancode).1);
    var c := Translate(r.mods, scancode).1;
    var t := IrqStep(r, scancode);
    if c != NUL && !Full(r) {
      assert Pending(t) == Pending(r) + [c];
    }
  }

  lemma ReadKeepsInv(r: Ring)
    requires Inv(r)
    ensures Inv(ReadStep(r))
  {
    hide Queued, At;
    FullIff(r);
    AtIs(r.tail, 1);
    if Pending(r) != [] {
      QueuedPop(r.buffer, r.tail, Pending(r));
      Slots(r.tail, 0, |Pending(r)| - 1);
    }
    if r.reader.Store? {
      assert Pending(ReadStep(r)) == Pending(r)[1..];
    }
  }

  // ---------- every interleaving ----------

  ghost function Run(r: Ring, evs: seq<Event>): (t: Ring)
    requires Inv(r)
    ensures Inv(t)
    decreases |evs|
  {
    if evs == [] then r
    else
      match evs[0] {
        case Irq(scancode) => IrqKeepsInv(r, scancode); Run(Step(r, evs[0]), evs[1..])
        case ReaderStep => ReadKeepsInv(r); Run(Step(r, evs[0]), evs[1..])
      }
  }

  /** What one event types, and the modifiers it leaves. */
  function TypedBy(m: Mods, ev: Event): seq<char> {
    if ev.Irq? && Translate(m, ev.scancode).1 != NUL then [Translate(m, ev.scancode).1] else []
  }

  function ModsAfter(m: Mods, ev: Event): Mods {
    if ev.Irq? then Translate(m, ev.scancode).0 else m
  }

  /** The characters that a sequence of scancodes produces. */
  function Typed(m: Mods, evs: seq<Event>): seq<char>
    decreases |evs|
  {
    if evs == [] then [] else TypedBy(m, evs[0]) + Typed(ModsAfter(m, evs[0]), evs[1..])
  }

  /** No key arrives while 255 characters wait. */
  ghost predicate NeverFull(r: Ring, evs: seq<Event>)
    requires Inv(r)
    decreases |evs|
  {
    evs == [] ||
    ((evs[0].Irq? ==> |Pending(r)| < 255) && Inv(Step(r, evs[0])) && NeverFull(Step(r, evs[0]), evs[1..]))
  }

  /** Whatever the interleaving, what the reader has returned is a prefix, in
      order, of what the handler accepted. */
  lemma ReturnedIsPrefix(r: Ring, evs: seq<Event>)
    requires Inv(r)
    ensures Run(r, evs).returned <= Run(r, evs).accepted
    ensures |Run(r, evs).accepted| - |Run(r, evs).returned| < KB_BUFFER_SIZE
  {
  }

  /** A character is dropped exactly when 255 are waiting; otherwise it joins the
      end, and the ones waiting stay. */
  lemma DropsIffFull(r: Ring, scancode: Byte)
    requires Inv(r) && Translate(r.mods, scancode).1 != NUL
    ensures var t := IrqStep(r, scancode);
      if |Pending(r)| == 255 then Pending(t) == Pending(r) && t.accepted == r.accepted
      else Pending(t) == Pending(r) + [Translate(r.mods, scancode).1]
  {
    hide Translate;
    FullIff(r);
  }

  lemma StepAccepts(r: Ring, ev: Event)
    requires Inv(r) && (ev.Irq? ==> |Pending(r)| < KB_BUFFER_SIZE - 1)
    ensures Step(r, ev).accepted == r.accepted + TypedBy(r.mods, ev)
    ensures Step(r, ev).mods == ModsAfter(r.mods, ev)
  {
    hide Translate;
    FullIff(r);
    assert r.accepted + [] == r.accepted;
  }

  /** With no key lost to a full ring, the reader gets what was typed. */
  lemma {:induction false} NothingLost(r: Ring, evs: seq<Event>)
    requires Inv(r) && NeverFull(r, evs)
    ensures Run(r, evs).accepted == r.accepted + Typed(r.mods, evs)
    decreases |evs|
  {
    hide Step, TypedBy, ModsAfter, Pending, At, Queued, ReaderOk;
    if evs == [] {
      assert r.accepted + [] == r.accepted;
    } else {
      StepAccepts(r, evs[0]);
      NothingLost(Step(r, evs[0]), evs[1..]);
    }
  }

  // ---------- modifiers ----------

  function ModsRun(m: Mods, codes: seq<Byte>): Mods
    decreases |codes|
  {
    if codes == [] then m else ModsRun(Translate(m, codes[0]).0, codes[1..])
  }

  /** The code is the press or the release of a key in `keys`. */
  predicate KeyEvent(keys: set<Byte>, code: Byte) {
    code % 0x80 in keys
  }

  /** Whether the last press or release of those keys in the history was a press. */
  function LastIsPress(before: bool, keys: set<Byte>, codes: seq<Byte>): bool {
    if codes == [] then before
    else
      var last := codes[|codes| - 1];
      if KeyEvent(keys, last) then last < 0x80 else LastIsPress(before, keys, codes[..|codes| - 1])
  }

  function CapsPresses(codes: seq<Byte>): nat {
    if codes == [] then 0
    else CapsPresses(codes[..|codes| - 1]) + if codes[|codes| - 1] == 0x3A then 1 else 0
  }

  lemma {:induction false} ModsRunSnoc(m: Mods, codes: seq<Byte>, code: Byte)
    ensures ModsRun(m, codes + [code]) == Translate(ModsRun(m, codes), code).0
    decreases |codes|
  {
    hide Translate;
    var all := codes + [code];
    if codes == [] {
      assert all[1..] == [];
    } else {
      assert all[1..] == codes[1..] + [code];
      ModsRunSnoc(Translate(m, codes[0]).0, codes[1..], code);
    }
  }

  lemma TranslateMods(m: Mods, code: Byte)
    ensures var t := Translate(m, code).0;
      && t.shift == (if KeyEvent({0x2A, 0x36}, code) then code < 0x80 else m.shift)
      && t.ctrl == (if KeyEvent({0x1D}, code) then code < 0x80 else m.ctrl)
      && t.alt == (if KeyEvent({0x38}, code) then code < 0x80 else m.alt)
      && t.caps == (m.caps != (code == 0x3A))
  {
    hide Lookup, LetterKey;
    var key := if code < 0x80 then code else code - 0x80;
    assert code % 0x80 == key;
  }

  /** After any history, shift, control and alt are on when the last press or release
      of one of their keys was a press, and caps lock by the parity of its presses. */
  lemma {:induction false} ModsFollowHistory(m: Mods, codes: seq<Byte>)
    ensures var t := ModsRun(m, codes);
      && t.shift == LastIsPress(m.shift, {0x2A, 0x36}, codes)
      && t.ctrl == LastIsPress(m.ctrl, {0x1D}, codes)
      && t.alt == LastIsPress(m.alt, {0x38}, codes)
      && t.caps == (m.caps != (CapsPresses(codes) % 2 == 1))
  {
    if codes != [] {
      var most, last := codes[..|codes| - 1], codes[|codes| - 1];
      assert codes == most + [last];
      hide Translate, ModsRun, KeyEvent;
      TranslateMods(ModsRun(m, most), last);
      ModsFollowHistory(m, most);
      ModsRunSnoc(m, most, last);
    }
  }

  predicate IsLower(c: char) { 'a' <= c <= 'z' }

  function Upper(c: char): char
    requires IsLower(c)
  {
    c - 'a' + 'A'
  }

  /** The two tables at one key: on letter keys the second has the capital of the
      first, and the first has letters nowhere else. */
  predicate KeysAgree(k: Byte) {
    var plain, shifted := Lookup(PLAIN, k), Lookup(SHIFTED, k);
    (IsLower(plain) <==> LetterKey(k)) && (LetterKey(k) ==> IsLower(plain) && shifted == Upper(plain))
  }

  lemma EarlyKeysAgree(k: Byte, row: nat, column: nat)
    requires k == 8 * row + column && row < 4 && column < 8
    ensures KeysAgree(k)
  {
    assert row in [0, 1, 2, 3] && column in [0, 1, 2, 3, 4, 5, 6, 7];
  }

  lemma MiddleKeysAgree(k: Byte, row: nat, column: nat)
    requires k == 8 * row + column && 4 <= row < 8 && column < 8
    ensures KeysAgree(k)
  {
    assert row in [4, 5, 6, 7] && column in [0, 1, 2, 3, 4, 5, 6, 7];
  }

  lemma LateKeysAgree(k: Byte, row: nat, column: nat)
    requires k == 8 * row + column && 8 <= row <= 10 && column < 8
    ensures KeysAgree(k)
  {
    assert row in [8, 9, 10] && column in [0, 1, 2, 3, 4, 5, 6, 7];
  }

  lemma AllKeysAgree(k: Byte)
    requires k < TABLE_SIZE
    ensures KeysAgree(k)
  {
    hide KeysAgree;
    var row, column := k / 8, k % 8;
    if row < 4 {
      EarlyKeysAgree(k, row, column);
    } else if row < 8 {
      MiddleKeysAgree(k, row, column);
    } else {
      LateKeysAgree(k, row, column);
    }
  }

  /** Letter keys give the capital exactly when one of shift and caps lock is on. */
  lemma LetterCase(m: Mods, scancode: Byte)
    requires LetterKey(scancode)
    ensures IsLower(Lookup(PLAIN, scancode))
    ensures Translate(m, scancode) ==
      (m, if m.shift != m.caps then Upper(Lookup(PLAIN, scancode)) else Lookup(PLAIN, scancode))
  {
    AllKeysAgree(scancode);
    hide PLAIN, SHIFTED;
  }

  /** Caps lock changes what a key types exactly on the letter keys. */
  lemma CapsOnlyLetters(m: Mods, scancode: Byte)
    ensures Translate(m.(caps := true), scancode).1 != Translate(m.(caps := false), scancode).1 <==> LetterKey(scancode)
  {
    if LetterKey(scancode) {
      LetterCase(m.(caps := true), scancode);
      LetterCase(m.(caps := false), scancode);
    }
  }
}
