/**
 Hotkeys and the strings that stand for them. A registration and a key event are
 matched by comparing such strings.
 */
module HotkeyNames {
  import opened Basics
  import opened Text

  const PRE_KEYS_SIZE := 4
  const KEYS_SIZE := 3

  /** Left and right Alt, Shift and Ctrl. */
  const PRESS_KEY_CODES: set<int32> := {2045, 2046, 2047, 2048, 2072, 2073}

  /** The same, and left and right Meta: none of them can be a final key. */
  const FINAL_KEY_CODES: set<int32> := PRESS_KEY_CODES + {2076, 2077}

  datatype Hotkey = Hotkey(preKeys: set<int32>, finalKey: int32, isRepeat: bool)

  datatype KeyAction = Down | Up | Cancel

  datatype KeyEvent = KeyEvent(keyCode: int32, action: KeyAction, items: seq<int32>, isRepeat: bool)

  // ----- Key sets in ascending order -----

  ghost predicate IsLeast(m: int32, keys: set<int32>) {
    m in keys && forall x :: x in keys ==> m <= x
  }

  lemma {:induction false} LeastExists(keys: set<int32>)
    requires keys != {}
    ensures exists m :: IsLeast(m, keys)
    decreases |keys|
  {
    assert |keys| > 0;
    var x :| x in keys;
    var rest := keys - {x};
    if rest == {} {
      assert keys == {x};
      assert IsLeast(x, keys);
    } else {
      LeastExists(rest);
      var m :| IsLeast(m, rest);
      var least := if x <= m then x else m;
      assert forall y :: y in keys ==> y == x || y in rest;
      assert IsLeast(least, keys);
    }
  }

  ghost function Least(keys: set<int32>): (m: int32)
    requires keys != {}
    ensures IsLeast(m, keys)
  {
    LeastExists(keys);
    var m :| IsLeast(m, keys);
    m
  }

  /** The keys in the order in which an ordered set yields them. */
  ghost function Sorted(keys: set<int32>): (s: seq<int32>)
    decreases |keys|
  {
    if keys == {} then [] else [Least(keys)] + Sorted(keys - {Least(keys)})
  }

  function KeySet(numbers: seq<int32>): set<int32> {
    set i | i in numbers
  }

  lemma {:induction false} SortedElements(keys: set<int32>)
    ensures KeySet(Sorted(keys)) == keys
    decreases |keys|
  {
    if keys != {} {
      SortedElements(keys - {Least(keys)});
      assert KeySet(Sorted(keys)) == {Least(keys)} + KeySet(Sorted(keys - {Least(keys)}));
    }
  }

  // ----- Names -----

  function Flag(b: bool): int32 {
    if b then 1 else 0
  }

  /** What the name lists: the pre-keys, the final key, that it goes down, for no time, and the repeat flag. */
  ghost function Numbers(hotkey: Hotkey): seq<int32> {
    Sorted(hotkey.preKeys) + [hotkey.finalKey, 1, 0, Flag(hotkey.isRepeat)]
  }

  ghost function Name(hotkey: Hotkey): string {
    Encode(Numbers(hotkey))
  }

  function DecodeName(name: string): Option<Hotkey> {
    match Decode(name)
    case None => None
    case Some(numbers) =>
      var n := |numbers|;
      if n < 4 || numbers[n - 3] != 1 || numbers[n - 2] != 0 || !(0 <= numbers[n - 1] <= 1) then None
      else Some(Hotkey(KeySet(numbers[..n - 4]), numbers[n - 4], numbers[n - 1] == 1))
  }

  /** A name determines its hotkey. */
  lemma NameRoundTrip(hotkey: Hotkey)
    ensures DecodeName(Name(hotkey)) == Some(hotkey)
  {
    EncodeRoundTrip(Numbers(hotkey));
    SortedElements(hotkey.preKeys);
    NumbersParts(hotkey);
  }

  lemma NumbersParts(hotkey: Hotkey)
    ensures var numbers, n := Numbers(hotkey), |Numbers(hotkey)|;
            && n >= 4 && numbers[..n - 4] == Sorted(hotkey.preKeys) && numbers[n - 4] == hotkey.finalKey
            && numbers[n - 3] == 1 && numbers[n - 2] == 0 && numbers[n - 1] == Flag(hotkey.isRepeat)
  {
  }

  lemma DifferentHotkeysDifferentNames(a: Hotkey, b: Hotkey)
    ensures Name(a) == Name(b) <==> a == b
  {
    NameRoundTrip(a);
    NameRoundTrip(b);
  }

  // ----- Registrations and events -----

  /** The registrations MakeHotkeyInfo lets through. */
  predicate Acceptable(hotkey: Hotkey) {
    && 0 < |hotkey.preKeys| <= PRE_KEYS_SIZE
    && hotkey.preKeys <= PRESS_KEY_CODES
    && 0 <= hotkey.finalKey
    && hotkey.finalKey !in FINAL_KEY_CODES
  }

  /** One to four pre-keys, each a left or right Alt, Shift or Ctrl; the final key none of these nor Meta, and not negative. */
  lemma WhichAreAccepted(hotkey: Hotkey)
    ensures Acceptable(hotkey)
       <==> && 1 <= |hotkey.preKeys| <= 4
            && (forall key :: key in hotkey.preKeys ==>
                  key == 2045 || key == 2046 || key == 2047 || key == 2048 || key == 2072 || key == 2073)
            && 0 <= hotkey.finalKey && !(2045 <= hotkey.finalKey <= 2048) && !(2072 <= hotkey.finalKey <= 2073)
            && !(2076 <= hotkey.finalKey <= 2077)
  {
    assert forall key :: key in hotkey.preKeys && key in PRESS_KEY_CODES ==>
             key == 2045 || key == 2046 || key == 2047 || key == 2048 || key == 2072 || key == 2073;
  }

  function Held(event: KeyEvent): set<int32> {
    KeySet(event.items)
  }

  /** The hotkey an event amounts to, if it is looked up at all. */
  function EventHotkey(event: KeyEvent): Option<Hotkey> {
    if |event.items| > KEYS_SIZE || event.action != Down then None
    else Some(Hotkey(Held(event) - {event.keyCode}, event.keyCode, event.isRepeat))
  }

  ghost function EventName(event: KeyEvent): Option<string> {
    match EventHotkey(event)
    case None => None
    case Some(hotkey) => Some(Name(hotkey))
  }

  /** An event has the name of a hotkey exactly when it is that key going down over those keys, three items at most. */
  lemma EventNames(event: KeyEvent, hotkey: Hotkey)
    ensures EventName(event) == Some(Name(hotkey))
       <==> && event.action == Down && |event.items| <= KEYS_SIZE
            && event.keyCode == hotkey.finalKey && event.isRepeat == hotkey.isRepeat
            && Held(event) - {event.keyCode} == hotkey.preKeys
  {
    if h :| EventHotkey(event) == Some(h) {
      DifferentHotkeysDifferentNames(h, hotkey);
    }
  }

  /** The event of pressing the hotkey: the final key goes down while exactly the pre-keys and it are held, each once. */
  ghost predicate Presses(event: KeyEvent, hotkey: Hotkey) {
    && event.action == Down && event.keyCode == hotkey.finalKey && event.isRepeat == hotkey.isRepeat
    && Held(event) == hotkey.preKeys + {hotkey.finalKey}
    && |event.items| == |hotkey.preKeys| + 1
  }

  lemma FinalKeyIsNoPreKey(hotkey: Hotkey)
    requires Acceptable(hotkey)
    ensures hotkey.finalKey !in hotkey.preKeys
  {
  }

  /** Pressing an accepted hotkey is recognised exactly when it has at most two pre-keys, although four are accepted. */
  lemma PressIsRecognised(event: KeyEvent, hotkey: Hotkey)
    requires Acceptable(hotkey) && Presses(event, hotkey)
    ensures EventName(event) == Some(Name(hotkey)) <==> |hotkey.preKeys| <= 2
  {
    FinalKeyIsNoPreKey(hotkey);
    EventNames(event, hotkey);
    assert Held(event) - {event.keyCode} == hotkey.preKeys;
  }

  lemma {:induction false} HeldSize(items: seq<int32>)
    ensures |KeySet(items)| <= |items|
  {
    if items != [] {
      HeldSize(items[1..]);
      assert KeySet(items) == {items[0]} + KeySet(items[1..]);
    }
  }

  /** No event whatever that counts its own key among the held ones has the name of a hotkey with three or four pre-keys. */
  lemma ManyPreKeysNeverMatch(event: KeyEvent, hotkey: Hotkey)
    requires Acceptable(hotkey) && |hotkey.preKeys| > 2 && event.keyCode in event.items
    ensures EventName(event) != Some(Name(hotkey))
  {
    EventNames(event, hotkey);
    HeldSize(event.items);
    assert Held(event) == (Held(event) - {event.keyCode}) + {event.keyCode};
  }

  // ----- Building names -----

  method LeastKey(keys: set<int32>) returns (m: int32)
    requires keys != {}
    ensures m == Least(keys)
  {
    assert |keys| > 0;
    m :| m in keys;
    var rest := keys - {m};
    while rest != {}
      invariant m in keys && rest <= keys
      invariant forall x :: x in keys && x !in rest ==> m <= x
      decreases rest
    {
      var x :| x in rest;
      if x < m {
        m := x;
      }
      rest := rest - {x};
    }
    assert IsLeast(m, keys) && IsLeast(Least(keys), keys);
  }

  /** An encoded list ready to be continued. */
  ghost function Prefix(numbers: seq<int32>): string {
    if numbers == [] then "" else Encode(numbers) + ","
  }

  lemma EncodeAfterPrefix(numbers: seq<int32>, n: int32)
    ensures Prefix(numbers) + ToString(n) == Encode(numbers + [n])
    ensures Prefix(numbers + [n]) == Prefix(numbers) + ToString(n) + ","
  {
    if numbers == [] {
      assert numbers + [n] == [n];
    } else {
      EncodeSnoc(numbers, n);
    }
  }

  lemma FourMore(numbers: seq<int32>, a: int32, b: int32, c: int32, d: int32)
    ensures Prefix(numbers) + ToString(a) + "," + ToString(b) + "," + ToString(c) + "," + ToString(d)
         == Encode(numbers + [a, b, c, d])
  {
    var one, two, three := numbers + [a], numbers + [a, b], numbers + [a, b, c];
    EncodeAfterPrefix(numbers, a);
    assert one + [b] == two && two + [c] == three && three + [d] == numbers + [a, b, c, d];
    EncodeAfterPrefix(one, b);
    EncodeAfterPrefix(two, c);
    EncodeAfterPrefix(three, d);
  }

  method GetHotkeyName(preKeys: set<int32>, finalKey: int32, isRepeat: bool) returns (name: string)
    ensures name == Name(Hotkey(preKeys, finalKey, isRepeat))
  {
    name := "";
    ghost var done: seq<int32> := [];
    var rest := preKeys;
    while rest != {}
      invariant done + Sorted(rest) == Sorted(preKeys)
      invariant name == Prefix(done)
      decreases |rest|
    {
      var item := LeastKey(rest);
      EncodeAfterPrefix(done, item);
      assert done + Sorted(rest) == (done + [item]) + Sorted(rest - {item});
      name := name + ToString(item);
      name := name + ",";
      done := done + [item];
      rest := rest - {item};
    }
    assert done == Sorted(preKeys);
    FourMore(done, finalKey, 1, 0, Flag(isRepeat));
    name := name + ToString(finalKey);
    name := name + ",";
    name := name + ToString(1);
    name := name + ",";
    name := name + ToString(0);
    name := name + ",";
    name := name + ToString(Flag(isRepeat));
  }

  /** Checks a registration and builds its name. */
  method MakeHotkeyInfo(hotkey: Hotkey) returns (name: Option<string>)
    ensures name == if Acceptable(hotkey) then Some(Name(hotkey)) else None
  {
    if hotkey.preKeys == {} || |hotkey.preKeys| > PRE_KEYS_SIZE {
      return None;
    }
    var rest := hotkey.preKeys;
    while rest != {}
      invariant rest <= hotkey.preKeys && hotkey.preKeys - rest <= PRESS_KEY_CODES
      decreases rest
    {
      var item :| item in rest;
      if item !in PRESS_KEY_CODES {
        assert !(hotkey.preKeys <= PRESS_KEY_CODES);
        return None;
      }
      rest := rest - {item};
    }
    assert hotkey.preKeys <= PRESS_KEY_CODES;
    if hotkey.finalKey < 0 || hotkey.finalKey in FINAL_KEY_CODES {
      return None;
    }
    var built := GetHotkeyName(hotkey.preKeys, hotkey.finalKey, hotkey.isRepeat);
    return Some(built);
  }

  method CheckHotkey(event: KeyEvent) returns (name: Option<string>)
    ensures name == EventName(event)
  {
    if |event.items| > KEYS_SIZE || event.action != Down {
      return None;
    }
    var pressKeys: set<int32> := {};
    for i := 0 to |event.items|
      invariant pressKeys == KeySet(event.items[..i])
    {
      pressKeys := pressKeys + {event.items[i]};
    }
    assert event.items[..|event.items|] == event.items;
    var built := GetHotkeyName(pressKeys - {event.keyCode}, event.keyCode, event.isRepeat);
    return Some(built);
  }
}
