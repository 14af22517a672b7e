/**
  The three press detectors of the framework: Mouse.cpp counts, Keyboard.cpp keeps two buffers,
  Device.cpp compares bit masks. Each keeps, as bookkeeping, the history of the bits it was fed.
 */
module InputDevices {
  import opened PressEdges

  // ---------------------------------------------------------------- mouse

  const LEFT := 0
  const RIGHT := 1

  /** The saturating counter after a history: 0 released, 1 just pressed, 2 kept pressed. */
  function Counter(trace: seq<bool>): int {
    if !Hold(trace) then 0 else if Push(trace) then 1 else 2
  }

  lemma CounterStep(trace: seq<bool>, pressed: bool)
    ensures Counter(trace + [pressed]) ==
            if !pressed then 0 else if Counter(trace) + 1 > 2 then 2 else Counter(trace) + 1
  {
  }

  class Mouse {
    var key: array<int>
    ghost var left: seq<bool>
    ghost var right: seq<bool>

    ghost predicate Valid()
      reads this, key
    {
      key.Length == 2 && key[LEFT] == Counter(left) && key[RIGHT] == Counter(right)
    }

    constructor ()
      ensures Valid() && fresh(key) && left == [] && right == []
    {
      key := new int[2];
      left, right := [], [];
      new;
      key[LEFT] := 0;
      key[RIGHT] := 0;
    }

    /** The counting of one button, which the source writes out for each. */
    method Count(b: int, pressed: bool)
      requires key.Length == 2 && 0 <= b < 2
      modifies key
      ensures key[b] == if !pressed then 0 else if old(key[b]) + 1 > 2 then 2 else old(key[b]) + 1
      ensures key[1 - b] == old(key[1 - b])
    {
      if pressed {
        key[b] := key[b] + 1;
        if key[b] > 2 {
          key[b] := 2;
        }
      } else {
        key[b] := 0;
      }
    }

    method Update(leftPressed: bool, rightPressed: bool)
      requires Valid()
      modifies this`left, this`right, key
      ensures Valid() && left == old(left) + [leftPressed] && right == old(right) + [rightPressed]
    {
      CounterStep(left, leftPressed);
      CounterStep(right, rightPressed);
      Count(LEFT, leftPressed);
      Count(RIGHT, rightPressed);
      left, right := left + [leftPressed], right + [rightPressed];
    }

    method IsPushRightButton() returns (r: bool)
      requires Valid()
      ensures r == Push(right)
    {
      r := false;
      if key[RIGHT] == 1 {
        r := true;
      }
    }

    method IsHoldRightButton() returns (r: bool)
      requires Valid()
      ensures r == Hold(right)
    {
      r := false;
      if key[RIGHT] >= 1 {
        r := true;
      }
    }

    method IsPushLeftButton() returns (r: bool)
      requires Valid()
      ensures r == Push(left)
    {
      r := false;
      if key[LEFT] == 1 {
        r := true;
      }
    }

    method IsHoldLeftButton() returns (r: bool)
      requires Valid()
      ensures r == Hold(left)
    {
      r := false;
      if key[LEFT] >= 1 {
        r := true;
      }
    }
  }

  // ---------------------------------------------------------------- keyboard

  const KEYS := 256

  /** The history of one key. */
  function TraceOf(frames: seq<seq<int>>, k: nat): seq<bool>
    requires forall f :: f in frames ==> k < |f|
  {
    seq(|frames|, i requires 0 <= i < |frames| => frames[i][k] == 1)
  }

  predicate Frame(f: seq<int>) {
    |f| == KEYS && forall k :: 0 <= k < KEYS ==> f[k] == 0 || f[k] == 1
  }

  /** The buffers are not initialised: `garbage` and `older` are what they held when the object was made. */
  class Keyboard {
    var nowKeys: seq<int>
    var beforeKeys: seq<int>
    var convert: map<string, int>
    ghost const garbage: seq<int>
    ghost const older: seq<int>
    ghost var frames: seq<seq<int>>

    ghost predicate Valid()
      reads this
    {
      && |garbage| == |older| == |nowKeys| == |beforeKeys| == KEYS
      && (forall f :: f in frames ==> Frame(f))
      && nowKeys == (if frames == [] then garbage else frames[|frames| - 1])
      && beforeKeys == (if frames == [] then older else if |frames| == 1 then garbage else frames[|frames| - 2])
      && (forall name :: name in convert ==> 0 <= convert[name] < KEYS)
    }

    constructor (names: map<string, int>, nowMemory: seq<int>, beforeMemory: seq<int>)
      requires |nowMemory| == |beforeMemory| == 256 && forall name :: name in names ==> 0 <= names[name] < KEYS
      ensures Valid() && frames == [] && convert == names && garbage == nowMemory && older == beforeMemory
    {
      nowKeys, beforeKeys, convert := nowMemory, beforeMemory, names;
      garbage, older, frames := nowMemory, beforeMemory, [];
    }

    method Update(hits: seq<int>)
      requires Valid() && Frame(hits)
      modifies this`nowKeys, this`beforeKeys, this`frames
      ensures Valid() && frames == old(frames) + [hits]
    {
      beforeKeys := nowKeys;
      nowKeys := hits;
      frames := frames + [hits];
    }

    /** `_convert[ key ]`: an unknown name is entered with index 0. */
    method Index(name: string) returns (k: int)
      requires Valid()
      modifies this`convert
      ensures Valid() && 0 <= k < KEYS
      ensures k == (if name in old(convert) then old(convert)[name] else 0)
      ensures convert == old(convert)[name := k]
    {
      if name !in convert {
        convert := convert[name := 0];
      }
      k := convert[name];
    }

    /** Right once there has been a frame; before it, only where the uninitialised memory does not say "pressed". */
    method IsHoldKey(name: string) returns (r: bool, k: int)
      requires Valid()
      modifies this`convert
      ensures Valid() && 0 <= k < KEYS && k == (if name in old(convert) then old(convert)[name] else 0)
      ensures r == Hold(TraceOf(frames, k)) <==> !(frames == [] && garbage[k] == 1)
    {
      k := Index(name);
      r := nowKeys[k] == 1;
    }

    /** Right in every frame, except that the first, and a query before it, also look at uninitialised memory. */
    method IsPushKey(name: string) returns (r: bool, k: int)
      requires Valid()
      modifies this`convert
      ensures Valid() && 0 <= k < KEYS && k == (if name in old(convert) then old(convert)[name] else 0)
      ensures r == Push(TraceOf(frames, k)) <==>
                !(frames == [] && garbage[k] == 1 && older[k] == 0) &&
                !(|frames| == 1 && frames[0][k] == 1 && garbage[k] != 0)
    {
      k := Index(name);
      r := nowKeys[k] == 1 && beforeKeys[k] == 0;
      assert |frames| > 1 ==> Frame(frames[|frames| - 2]);
    }
  }

  /** For instance: a key pressed in the first frame, over memory that is all ones, is not seen as pushed. */
  method FirstPushMissed() returns (keyboard: Keyboard, r: bool, k: int)
    ensures keyboard.Valid() && k == 0 && Push(TraceOf(keyboard.frames, 0)) && !r
  {
    var ones := seq(KEYS, i => 1);
    keyboard := new Keyboard(map["A" := 0], ones, ones);
    keyboard.Update(seq(KEYS, i => if i == 0 then 1 else 0));
    r, k := keyboard.IsPushKey("A");
    assert TraceOf(keyboard.frames, 0) == [true] && [true][..0] == [];
  }

  /** And before the first frame the same memory answers "held" though no key was ever seen. */
  method HeldBeforeFirstFrame() returns (keyboard: Keyboard, r: bool, k: int)
    ensures keyboard.Valid() && k == 0 && !Hold(TraceOf(keyboard.frames, 0)) && r
  {
    var ones := seq(KEYS, i => 1);
    keyboard := new Keyboard(map["A" := 0], ones, ones);
    r, k := keyboard.IsHoldKey("A");
  }

  // ---------------------------------------------------------------- joypad

  const PADS := 16
  const BUTTONS := 6

  /** BUTTON_A to BUTTON_F. */
  function Code(k: nat): bv8
    requires k < BUTTONS
  {
    match k case 0 => 0x01 case 1 => 0x02 case 2 => 0x04 case 3 => 0x08 case 4 => 0x10 case _ => 0x20
  }

  predicate Bit(mask: bv8, k: nat)
    requires k < BUTTONS
  {
    mask & Code(k) != 0
  }

  lemma SixBits(mask: bv8)
    ensures Bit(mask, 0) == (mask & 0x01 != 0) && Bit(mask, 1) == (mask & 0x02 != 0) && Bit(mask, 2) == (mask & 0x04 != 0)
    ensures Bit(mask, 3) == (mask & 0x08 != 0) && Bit(mask, 4) == (mask & 0x10 != 0) && Bit(mask, 5) == (mask & 0x20 != 0)
  {
  }

  lemma BitOfOr(mask: bv8, j: nat, k: nat)
    requires j < BUTTONS && k < BUTTONS
    ensures Bit(mask | Code(j), k) <==> Bit(mask, k) || j == k
  {
  }

  lemma NoBits(k: nat)
    requires k < BUTTONS
    ensures !Bit(0, k)
  {
  }

  /** Turning on one button's bit, seen from all buttons; the two spare bits are left alone. */
  function With(mask: bv8, j: nat): (r: bv8)
    requires j < BUTTONS
    ensures r & 0xC0 == mask & 0xC0
    ensures forall k :: 0 <= k < BUTTONS ==> (Bit(r, k) <==> Bit(mask, k) || k == j)
  {
    assert forall k :: 0 <= k < BUTTONS ==> (Bit(mask | Code(j), k) <==> Bit(mask, k) || k == j) by {
      forall k | 0 <= k < BUTTONS ensures Bit(mask | Code(j), k) <==> Bit(mask, k) || k == j { BitOfOr(mask, j, k); }
    }
    mask | Code(j)
  }

  /** Whether masks answer for buttons with the given histories. */
  ghost predicate Answers(button: bv8, push: bv8, traces: seq<seq<bool>>) {
    |traces| == BUTTONS && button & 0xC0 == 0 && push & 0xC0 == 0 &&
    forall k :: 0 <= k < BUTTONS ==> Bit(button, k) == Hold(traces[k]) && Bit(push, k) == Push(traces[k])
  }

  /** One more frame for each button of a pad. */
  function Appended(traces: seq<seq<bool>>, hits: seq<bool>): (r: seq<seq<bool>>)
    requires |traces| == |hits|
    ensures |r| == |hits| && forall k :: 0 <= k < |r| ==> r[k] == traces[k] + [hits[k]]
  {
    seq(|hits|, k requires 0 <= k < |hits| => traces[k] + [hits[k]])
  }

  /** The masks once the first `n` buttons have been examined, `before` being the old button mask. */
  ghost predicate Examined(button: bv8, push: bv8, before: bv8, hits: seq<bool>, n: nat)
    requires |hits| == BUTTONS
  {
    button & 0xC0 == 0 && push & 0xC0 == 0 &&
    forall k :: 0 <= k < BUTTONS ==>
      Bit(button, k) == (k < n && hits[k]) && Bit(push, k) == (k < n && hits[k] && !Bit(before, k))
  }

  lemma ExaminedAnswers(button: bv8, push: bv8, before: bv8, oldPush: bv8, traces: seq<seq<bool>>, hits: seq<bool>)
    requires |hits| == BUTTONS && Answers(before, oldPush, traces) && Examined(button, push, before, hits, BUTTONS)
    ensures Answers(button, push, Appended(traces, hits))
  {
  }

  lemma NothingExamined(before: bv8, hits: seq<bool>)
    requires |hits| == BUTTONS
    ensures Examined(0, 0, before, hits, 0)
  {
  }

  class Device {
    var button: array<bv8>
    var push: array<bv8>
    var num: int
    /** For every pad and every button of it: pressed or not, in each frame that updated the pad. */
    ghost var history: seq<seq<seq<bool>>>

    ghost predicate Valid()
      reads this, button, push
    {
      && button != push && button.Length == push.Length == |history| == PADS
      && num <= PADS
      && forall i :: 0 <= i < PADS ==> Answers(button[i], push[i], history[i])
    }

    constructor Initialize(pads: int)
      requires pads <= 16
      ensures Valid() && fresh(button) && fresh(push) && num == pads && button.Length == push.Length == 16
      ensures forall i :: 0 <= i < PADS ==> history[i] == seq(BUTTONS, _ => [])
    {
      button := new bv8[PADS](_ => 0);
      push := new bv8[PADS](_ => 0);
      num := pads;
      history := seq(PADS, _ => seq(BUTTONS, _ => []));
      forall k | 0 <= k < BUTTONS ensures !Bit(0, k) { NoBits(k); }
    }

    method GetButton(idx: int) returns (r: bv8)
      requires Valid() && idx < 16
      ensures idx < 0 ==> r == 0
      ensures r & 0xC0 == 0
      ensures idx >= 0 ==>
                (r & 0x01 != 0 <==> Hold(history[idx][0])) &&
                (r & 0x02 != 0 <==> Hold(history[idx][1])) &&
                (r & 0x04 != 0 <==> Hold(history[idx][2])) &&
                (r & 0x08 != 0 <==> Hold(history[idx][3])) &&
                (r & 0x10 != 0 <==> Hold(history[idx][4])) &&
                (r & 0x20 != 0 <==> Hold(history[idx][5]))
    {
      if idx < 0 {
        return 0;
      }
      r := button[idx];
      assert Answers(button[idx], push[idx], history[idx]);
      assert forall k :: 0 <= k < BUTTONS ==> Bit(r, k) == Hold(history[idx][k]);
      SixBits(r);
    }

    method GetPush(idx: int) returns (r: bv8)
      requires Valid() && idx < 16
      ensures idx < 0 ==> r == 0
      ensures r & 0xC0 == 0
      ensures idx >= 0 ==>
                (r & 0x01 != 0 <==> Push(history[idx][0])) &&
                (r & 0x02 != 0 <==> Push(history[idx][1])) &&
                (r & 0x04 != 0 <==> Push(history[idx][2])) &&
                (r & 0x08 != 0 <==> Push(history[idx][3])) &&
                (r & 0x10 != 0 <==> Push(history[idx][4])) &&
                (r & 0x20 != 0 <==> Push(history[idx][5]))
    {
      if idx < 0 {
        return 0;
      }
      r := push[idx];
      assert Answers(button[idx], push[idx], history[idx]);
      assert forall k :: 0 <= k < BUTTONS ==> Bit(r, k) == Push(history[idx][k]);
      SixBits(r);
    }

    /** `if` one button is hit: add it to the held ones, and to the pushed ones if it was not held before. */
    static method ExamineButton(button: bv8, push: bv8, before: bv8, k: nat, hits: seq<bool>) returns (button': bv8, push': bv8)
      requires |hits| == BUTTONS && k < BUTTONS && Examined(button, push, before, hits, k)
      ensures Examined(button', push', before, hits, k + 1)
    {
      button', push' := button, push;
      if hits[k] {
        button' := With(button', k);
        if !Bit(before, k) {
          push' := With(push', k);
        }
      }
    }

    /** The loop form, fed from the keyboard; only pad 0 is touched. */
    method UpdateNoJoypad(hits: seq<bool>)
      requires Valid() && |hits| == BUTTONS
      modifies this`history, button, push
      ensures Valid() && history == old(history)[0 := Appended(old(history)[0], hits)]
    {
      var before := button[0];
      ghost var oldPush := push[0];
      assert Answers(before, oldPush, history[0]);
      button[0] := 0;
      push[0] := 0;
      NothingExamined(before, hits);
      for i := 0 to BUTTONS
        invariant history == old(history)
        invariant forall p :: 0 < p < PADS ==> button[p] == old(button[p]) && push[p] == old(push[p])
        invariant Examined(button[0], push[0], before, hits, i)
      {
        button[0], push[0] := ExamineButton(button[0], push[0], before, i, hits);
      }
      ExaminedAnswers(button[0], push[0], before, oldPush, history[0], hits);
      history := history[0 := Appended(history[0], hits)];
    }

    /** One pad of the unrolled form. */
    method UpdatePad(i: int, hits: seq<bool>)
      requires Valid() && |hits| == BUTTONS && 0 <= i < PADS
      modifies this`history, button, push
      ensures Valid() && history == old(history)[i := Appended(old(history)[i], hits)]
    {
      var before := button[i];
      ghost var oldPush := push[i];
      assert Answers(before, oldPush, history[i]);
      NothingExamined(before, hits);
      var b, p := ExamineButton(0, 0, before, 0, hits);
      b, p := ExamineButton(b, p, before, 1, hits);
      b, p := ExamineButton(b, p, before, 2, hits);
      b, p := ExamineButton(b, p, before, 3, hits);
      b, p := ExamineButton(b, p, before, 4, hits);
      b, p := ExamineButton(b, p, before, 5, hits);
      ExaminedAnswers(b, p, before, oldPush, history[i], hits);
      button[i] := b;
      push[i] := p;
      history := history[i := Appended(history[i], hits)];
    }

    method UpdateJoypad(inputs: seq<seq<bool>>)
      requires Valid() && num <= |inputs| && forall i :: 0 <= i < |inputs| ==> |inputs[i]| == BUTTONS
      modifies this`history, button, push
      ensures Valid()
      ensures forall p :: 0 <= p < PADS ==>
                history[p] == if p < num then Appended(old(history)[p], inputs[p]) else old(history)[p]
    {
      var i := 0;
      while i < num
        invariant Valid() && (i == 0 || 0 < i <= num)
        invariant forall p :: 0 <= p < PADS ==>
                    history[p] == if p < i then Appended(old(history)[p], inputs[p]) else old(history)[p]
      {
        UpdatePad(i, inputs[i]);
        i := i + 1;
      }
    }

    /** The keyboard stands in when there is no joypad. */
    method Update(keys: seq<bool>, inputs: seq<seq<bool>>)
      requires Valid() && |keys| == BUTTONS
      requires num <= |inputs| && forall i :: 0 <= i < |inputs| ==> |inputs[i]| == BUTTONS
      modifies this`history, button, push
      ensures Valid()
      ensures forall p :: 0 <= p < PADS ==>
                history[p] == if num < 1 && p == 0 then Appended(old(history)[p], keys)
                              else if p < num then Appended(old(history)[p], inputs[p])
                              else old(history)[p]
    {
      if num < 1 {
        UpdateNoJoypad(keys);
      } else {
        UpdateJoypad(inputs);
      }
    }
  }
}
