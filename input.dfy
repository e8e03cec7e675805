/** What the user has typed so far, and the login attempts it leads to.
    The authentication call is a parameter of each key event; `PamAuth` is the
    check the lock screen links against. */
module Keyboard {
  import opened Primitives
  import opened Colors
  import Pam

  const XKB_KEY_BACKSPACE: u32 := 0xff08
  const XKB_KEY_RETURN: u32 := 0xff0d
  const XKB_KEY_KP_ENTER: u32 := 0xff8d

  datatype KeyState = Released | Pressed

  predicate IsEnter(keysym: u32)
  {
    keysym == XKB_KEY_RETURN || keysym == XKB_KEY_KP_ENTER
  }

  /** A string `CString::new` accepts: no interior NUL. */
  predicate NulFree(s: string)
  {
    '\0' !in s
  }

  /** The UTF-8 encoding of one character. */
  function EncodeChar(c: char): (b: seq<u8>)
    ensures 1 <= |b| <= 4
    ensures 0 in b <==> c == '\0'
  {
    var n := c as int;
    if n < 0x80 then
      [TruncU8(n)]
    else if n < 0x800 then
      [TruncU8(0xC0 + n / 0x40), TruncU8(0x80 + n % 0x40)]
    else if n < 0x10000 then
      [TruncU8(0xE0 + n / 0x1000), TruncU8(0x80 + n / 0x40 % 0x40), TruncU8(0x80 + n % 0x40)]
    else
      [TruncU8(0xF0 + n / 0x40000), TruncU8(0x80 + n / 0x1000 % 0x40),
       TruncU8(0x80 + n / 0x40 % 0x40), TruncU8(0x80 + n % 0x40)]
  }

  /** The UTF-8 bytes of a Rust string. */
  function Utf8(s: string): (b: seq<u8>)
    ensures b == [] <==> s == []
    ensures 0 in b <==> '\0' in s
    ensures s != [] ==> b[0] == EncodeChar(s[0])[0]
  {
    if s == [] then [] else EncodeChar(s[0]) + Utf8(s[1..])
  }

  /** The bytes `CString::new(s).as_ptr()` points at: the string's UTF-8 bytes
      and a terminating NUL. */
  function CString(s: string): (mem: seq<u8>)
    ensures Pam.Terminated(mem)
    ensures NulFree(s) ==> (mem[0] == 0 <==> s == [])
  {
    Utf8(s) + [0]
  }

  /** The authentication the lock screen performs: `check_auth` on the two
      C strings. */
  function PamAuth(username: string, password: string): bool
  {
    Pam.CheckAuth(Some(CString(username)), Some(CString(password)))
  }

  /** For strings `CString::new` accepts, the check passes exactly when both
      are non-empty. */
  lemma PamAuthIff(username: string, password: string)
    requires NulFree(username) && NulFree(password)
    ensures PamAuth(username, password) <==> username != [] && password != []
  {
  }

  /** `u32::to_be` on a little-endian host: the word whose memory image is
      the memory image of `x` in reverse order. */
  function SwapBytes(x: u32): (y: u32)
    ensures LeBytes(y) == [LeBytes(x)[3], LeBytes(x)[2], LeBytes(x)[1], LeBytes(x)[0]]
  {
    var b := LeBytes(x);
    FromLeBytes([b[3], b[2], b[1], b[0]])
  }

  /** The byte `update_screen_color` takes from a character: `bytes[3]` of
      `transmute::<u32, [u8; 4]>((chr as u32).to_be())`. It is the low byte
      of the code point. */
  function LowByte(c: char): (v: u8)
    ensures v == c as int % 256
  {
    var bytes := LeBytes(SwapBytes(c as int));
    bytes[3]
  }

  /** Red, green and blue accumulators of the feedback colour. */
  datatype Channels = Channels(r: u8, g: u8, b: u8)

  /** Channel-wise wrapping sum. */
  function Add(x: Channels, y: Channels): Channels
  {
    Channels(WrappingAdd(x.r, y.r), WrappingAdd(x.g, y.g), WrappingAdd(x.b, y.b))
  }

  lemma AddAssociates(x: Channels, y: Channels, z: Channels)
    ensures Add(Add(x, y), z) == Add(x, Add(y, z))
  {
    WrappingAddAssociates(x.r, y.r, z.r);
    WrappingAddAssociates(x.g, y.g, z.g);
    WrappingAddAssociates(x.b, y.b, z.b);
  }

  lemma AddCommutes(x: Channels, y: Channels)
    ensures Add(x, y) == Add(y, x)
  {
    WrappingAddCommutes(x.r, y.r);
    WrappingAddCommutes(x.g, y.g);
    WrappingAddCommutes(x.b, y.b);
  }

  /** What one character adds: its low byte to red, a third of it to green,
      half of it to blue. */
  function Gain(c: char): Channels
  {
    var v := LowByte(c);
    Channels(v, v / 3, v / 2)
  }

  /** The accumulators after folding every character of `s`, from zero, each
      channel wrapping at 256. */
  function Fold(s: string): Channels
  {
    if s == [] then Channels(0, 0, 0) else Add(Fold(s[..|s| - 1]), Gain(s[|s| - 1]))
  }

  /** The colour the screen shows for a buffer. */
  function FeedbackColor(s: string): (c: Color)
    ensures c.alpha == OPAQUE
    ensures c == FromU8s(Fold(s).r, Fold(s).g, Fold(s).b)
  {
    var ch := Fold(s);
    FromU8s(ch.r, ch.g, ch.b)
  }

  /** The fold of a concatenation is the channel-wise wrapping sum of the
      folds: each character contributes independently of the others. */
  lemma {:induction false} FoldAppend(s: string, t: string)
    ensures Fold(s + t) == Add(Fold(s), Fold(t))
    decreases |t|
  {
    if t == [] {
      assert s + t == s;
    } else {
      var t' := t[..|t| - 1];
      assert (s + t)[..|s + t| - 1] == s + t';
      assert (s + t)[|s + t| - 1] == t[|t| - 1];
      FoldAppend(s, t');
      AddAssociates(Fold(s), Fold(t'), Gain(t[|t| - 1]));
    }
  }

  /** The fold of a single character. */
  lemma FoldOne(c: char)
    ensures Fold([c]) == Gain(c)
  {
    assert [c][..0] == [];
  }

  /** Typing `t` after `s` moves the colour by the fold of `t` alone. */
  lemma FeedbackAfterTyping(s: string, t: string)
    ensures FeedbackColor(s + t)
         == FromU8s(WrappingAdd(Fold(s).r, Fold(t).r), WrappingAdd(Fold(s).g, Fold(t).g),
                    WrappingAdd(Fold(s).b, Fold(t).b))
  {
    FoldAppend(s, t);
  }

  /** The colour does not depend on the order the text was typed in. */
  lemma FeedbackOrderInsensitive(s: string, t: string)
    ensures FeedbackColor(s + t) == FeedbackColor(t + s)
  {
    FoldAppend(s, t);
    FoldAppend(t, s);
    AddCommutes(Fold(s), Fold(t));
  }

  /** `String::pop`: drop the last character, if there is one. */
  function Pop(s: string): (r: string)
    ensures s == [] ==> r == []
    ensures s != [] ==> r + [s[|s| - 1]] == s
  {
    if s == [] then [] else s[..|s| - 1]
  }

  /** The login state an `Input` keeps. */
  datatype AuthState = AuthState(buffer: string, loggedIn: bool, failed: nat, newColor: Option<Color>)

  /** The state of a fresh `Input`. */
  const INITIAL: AuthState := AuthState([], false, 0, None)

  /** What one key event does to the state. Only presses act. Enter hands
      username and buffer to `auth`: success sets the sticky flag, failure
      counts; the buffer is cleared either way. Backspace drops one character.
      Any other key with text appends it and sets the feedback colour. */
  function Step(s: AuthState, username: string, keysym: u32, state: KeyState,
                text: Option<string>, auth: (string, string) -> bool): (r: AuthState)
    requires state == Pressed && IsEnter(keysym) ==> NulFree(username) && NulFree(s.buffer)
    ensures s.loggedIn ==> r.loggedIn
    ensures s.failed <= r.failed
    ensures NulFree(s.buffer) && (text.Some? ==> NulFree(text.value)) ==> NulFree(r.buffer)
  {
    if state != Pressed then
      s
    else if IsEnter(keysym) then
      if auth(username, s.buffer) then s.(loggedIn := true, buffer := [])
      else s.(failed := s.failed + 1, buffer := [])
    else if keysym == XKB_KEY_BACKSPACE then
      s.(buffer := Pop(s.buffer))
    else if text.Some? then
      var buffer := s.buffer + text.value;
      s.(buffer := buffer, newColor := Some(FeedbackColor(buffer)))
    else
      s
  }

  /** A released key changes nothing. */
  lemma ReleaseIsNoOp(s: AuthState, username: string, keysym: u32,
                      text: Option<string>, auth: (string, string) -> bool)
    ensures Step(s, username, keysym, Released, text, auth) == s
  {
  }

  /** Enter submits the whole buffer and clears it; the outcome decides
      between the sticky flag and the failure count. */
  lemma EnterSubmits(s: AuthState, username: string, keysym: u32,
                     text: Option<string>, auth: (string, string) -> bool)
    requires IsEnter(keysym) && NulFree(username) && NulFree(s.buffer)
    ensures var r := Step(s, username, keysym, Pressed, text, auth);
      && r.buffer == []
      && r.loggedIn == (s.loggedIn || auth(username, s.buffer))
      && r.failed == (if auth(username, s.buffer) then s.failed else s.failed + 1)
      && r.newColor == s.newColor
  {
  }

  /** Backspace drops the last character (nothing on an empty buffer) and
      touches nothing else. */
  lemma BackspaceDropsLast(s: AuthState, username: string, text: Option<string>,
                           auth: (string, string) -> bool)
    ensures var r := Step(s, username, XKB_KEY_BACKSPACE, Pressed, text, auth);
      && (s.buffer == [] ==> r.buffer == [])
      && (s.buffer != [] ==> r.buffer + [s.buffer[|s.buffer| - 1]] == s.buffer)
      && r.loggedIn == s.loggedIn && r.failed == s.failed && r.newColor == s.newColor
  {
  }

  /** Any other pressed key appends its text and recolours from the whole
      buffer; without text it changes nothing. */
  lemma TypingAppends(s: AuthState, username: string, keysym: u32, text: Option<string>,
                      auth: (string, string) -> bool)
    requires !IsEnter(keysym) && keysym != XKB_KEY_BACKSPACE
    ensures var r := Step(s, username, keysym, Pressed, text, auth);
      && (text.None? ==> r == s)
      && (text.Some? ==> r.buffer == s.buffer + text.value
                         && r.newColor == Some(FeedbackColor(r.buffer))
                         && r.loggedIn == s.loggedIn && r.failed == s.failed)
  {
  }

  /** With the linked check, a non-empty username and strings without NUL,
      Enter logs in exactly when the buffer is non-empty. */
  lemma EnterWithPam(s: AuthState, username: string, keysym: u32, text: Option<string>)
    requires IsEnter(keysym) && username != [] && NulFree(username) && NulFree(s.buffer)
    ensures var r := Step(s, username, keysym, Pressed, text, PamAuth);
      && (r.loggedIn <==> s.loggedIn || s.buffer != [])
      && r.failed == (if s.buffer != [] then s.failed else s.failed + 1)
  {
    PamAuthIff(username, s.buffer);
  }

  /** One key event as the keyboard delivers it. */
  datatype KeyEvent = KeyEvent(keysym: u32, state: KeyState, text: Option<string>)

  predicate TextNulFree(e: KeyEvent)
  {
    e.text.Some? ==> NulFree(e.text.value)
  }

  /** The state after a sequence of key events. */
  function Run(s: AuthState, username: string, events: seq<KeyEvent>,
               auth: (string, string) -> bool): (r: AuthState)
    requires NulFree(username) && NulFree(s.buffer)
    requires forall i :: 0 <= i < |events| ==> TextNulFree(events[i])
    ensures NulFree(r.buffer)
    decreases |events|
  {
    if events == [] then s
    else
      var e := events[0];
      assert TextNulFree(e);
      assert forall i :: 0 <= i < |events[1..]| ==> TextNulFree(events[1..][i]) by {
        forall i | 0 <= i < |events[1..]| ensures TextNulFree(events[1..][i]) {
          assert events[1..][i] == events[i + 1];
        }
      }
      Run(Step(s, username, e.keysym, e.state, e.text, auth), username, events[1..], auth)
  }

  /** Over any run, a login is never undone and failures never decrease. */
  lemma {:induction false} RunMonotone(s: AuthState, username: string, events: seq<KeyEvent>,
                                       auth: (string, string) -> bool)
    requires NulFree(username) && NulFree(s.buffer)
    requires forall i :: 0 <= i < |events| ==> TextNulFree(events[i])
    ensures s.loggedIn ==> Run(s, username, events, auth).loggedIn
    ensures s.failed <= Run(s, username, events, auth).failed
    decreases |events|
  {
    if events != [] {
      var e := events[0];
      RunMonotone(Step(s, username, e.keysym, e.state, e.text, auth), username, events[1..], auth);
    }
  }

  const XKB_KEY_A: u32 := 0x61
  const XKB_KEY_B: u32 := 0x62
  const XKB_KEY_C: u32 := 0x63

  /** Typing characters `a`, `b`, Backspace, `c`, Enter (on the keys for
      `a`, `b` and `c`) against a check that accepts only the password
      `[a, c]` logs in, with no failure and an empty buffer. */
  lemma TypedPasswordLogsIn(username: string, a: char, b: char, c: char)
    requires NulFree(username) && NulFree([a, b, c])
    ensures var events := [
        KeyEvent(XKB_KEY_A, Pressed, Some([a])),
        KeyEvent(XKB_KEY_B, Pressed, Some([b])),
        KeyEvent(XKB_KEY_BACKSPACE, Pressed, None),
        KeyEvent(XKB_KEY_C, Pressed, Some([c])),
        KeyEvent(XKB_KEY_RETURN, Pressed, None)];
      var r := Run(INITIAL, username, events, (u: string, p: string) => p == [a, c]);
      r.loggedIn && r.failed == 0 && r.buffer == []
  {
    var auth := (u: string, p: string) => p == [a, c];
    var s1 := Step(INITIAL, username, XKB_KEY_A, Pressed, Some([a]), auth);
    assert s1.buffer == [a];
    var s2 := Step(s1, username, XKB_KEY_B, Pressed, Some([b]), auth);
    assert s2.buffer == [a, b];
    var s3 := Step(s2, username, XKB_KEY_BACKSPACE, Pressed, None, auth);
    assert s3.buffer == [a];
    var s4 := Step(s3, username, XKB_KEY_C, Pressed, Some([c]), auth);
    assert s4.buffer == [a, c];
    var s5 := Step(s4, username, XKB_KEY_RETURN, Pressed, None, auth);
    assert s5.loggedIn && s5.failed == 0 && s5.buffer == [];
    var events := [
        KeyEvent(XKB_KEY_A, Pressed, Some([a])),
        KeyEvent(XKB_KEY_B, Pressed, Some([b])),
        KeyEvent(XKB_KEY_BACKSPACE, Pressed, None),
        KeyEvent(XKB_KEY_C, Pressed, Some([c])),
        KeyEvent(XKB_KEY_RETURN, Pressed, None)];
    assert Run(s5, username, events[5..], auth) == s5;
    assert Run(s4, username, events[4..], auth) == s5;
    assert Run(s3, username, events[3..], auth) == s5;
    assert Run(s2, username, events[2..], auth) == s5;
    assert Run(s1, username, events[1..], auth) == s5;
  }

  /** The keyboard handler's state. */
  class Input {
    /** What the user has typed so far. */
    var buffer: string
    /** The user whose password is checked. */
    const username: string
    /** Whether the user has logged in. */
    var loggedIn: bool
    /** Failed login attempts. */
    var failed: nat
    /** The colour to show, once typing has produced one. */
    var newColor: Option<Color>

    constructor (username: string)
      ensures this.username == username
      ensures State() == INITIAL
    {
      this.username := username;
      buffer := [];
      loggedIn := false;
      failed := 0;
      newColor := None;
    }

    function State(): AuthState
      reads this
    {
      AuthState(buffer, loggedIn, failed, newColor)
    }

    /** Whether the user has logged in yet. */
    function IsLoggedIn(): (b: bool)
      reads this
      ensures b == State().loggedIn
    {
      loggedIn
    }

    /** Recomputes the feedback colour from the whole buffer. */
    method UpdateScreenColor()
      modifies this`newColor
      ensures newColor == Some(FeedbackColor(buffer))
    {
      var r: u8, g: u8, b: u8 := 0, 0, 0;
      for i := 0 to |buffer|
        invariant Channels(r, g, b) == Fold(buffer[..i])
      {
        var val := LowByte(buffer[i]);
        r := WrappingAdd(r, val);
        b := WrappingAdd(b, val / 2);
        g := WrappingAdd(g, val / 3);
        assert buffer[..i + 1][..i] == buffer[..i];
      }
      assert buffer[..|buffer|] == buffer;
      var color := FromU8s(r, g, b);
      newColor := Some(color);
    }

    /** The keyboard's key event. On Enter the username and the buffer are
        turned into C strings, which must not contain NUL. */
    method Key(keysym: u32, state: KeyState, text: Option<string>,
               auth: (string, string) -> bool)
      requires state == Pressed && IsEnter(keysym) ==> NulFree(username) && NulFree(buffer)
      modifies this
      ensures State() == Step(old(State()), username, keysym, state, text, auth)
    {
      if state == Pressed {
        if keysym == XKB_KEY_RETURN || keysym == XKB_KEY_KP_ENTER {
          var checkAuth := auth(username, buffer);
          if checkAuth {
            loggedIn := true;
          } else {
            failed := failed + 1;
          }
          buffer := [];
        } else if keysym == XKB_KEY_BACKSPACE {
          buffer := Pop(buffer);
        } else if text.Some? {
          buffer := buffer + text.value;
          UpdateScreenColor();
        }
      }
    }
  }
}
