/** `InteractiveSetEditor<T>.EditItems`: a key-driven editor over a list
    with a circular cursor. Each key press updates the pair (items, cursor);
    the session ends on the key that confirms the edit. */
module InteractiveSetEditor {
  import opened DotNet
  import opened ConsoleReader

  /** The keys the loop tells apart; every other key is `Other`. */
  datatype Key = RightArrow | LeftArrow | Spacebar | Tab | Delete | Backspace | Enter | Other

  /** The editor's state: the list being edited and the cursor into it. */
  datatype State<T> = State(items: seq<T>, index: int)

  /** What holds after every key the loop has processed: the list is never
      empty and the cursor points at one of its elements. */
  predicate Valid<T>(s: State<T>) {
    |s.items| >= 1 && 0 <= s.index < |s.items|
  }

  /** The state the loop starts from on the caller's list. */
  function Start<T>(items: seq<T>): State<T> {
    State(items, 0)
  }

  /** The dispatch on the key, before the cursor is wrapped. `value` is what
      the value reader returns; only the space bar and tab use it. It raises
      only when the space bar, or delete and backspace on a list that is not
      a single element, meet a cursor outside the list. Otherwise the list
      grows or shrinks by at most one element and the cursor moves by at
      most one. */
  function Dispatch<T>(s: State<T>, key: Key, value: T): (r: Outcome<State<T>>)
    ensures r.Thrown? <==>
      (key == Spacebar || ((key == Delete || key == Backspace) && |s.items| != 1)) && !(0 <= s.index < |s.items|)
    ensures r.Thrown? ==> r.fault == ArgumentOutOfRange
    ensures r.Ok? ==>
      |s.items| - 1 <= |r.value.items| <= |s.items| + 1 && s.index - 1 <= r.value.index <= s.index + 1
  {
    match key
    case RightArrow => Ok(s.(index := s.index + 1))
    case LeftArrow => Ok(s.(index := s.index - 1))
    case Spacebar =>
      if 0 <= s.index < |s.items| then Ok(s.(items := s.items[s.index := value]))
      else Thrown(ArgumentOutOfRange)
    case Tab => Ok(s.(items := s.items + [value]))
    case Delete | Backspace =>
      if |s.items| == 1 then Ok(s)
      else if 0 <= s.index < |s.items| then Ok(s.(items := s.items[..s.index] + s.items[s.index + 1..]))
      else Thrown(ArgumentOutOfRange)
    case Enter | Other => Ok(s)
  }

  /** The wrap-around applied after every key: `(count + index) % count`
      with C#'s remainder. It fails on an empty list, and it brings any
      cursor in `[-count, 2 * count)` back into `[0, count)` without changing
      it modulo `count`. */
  function Normalize(count: nat, index: int): (r: Outcome<int>)
    ensures r.Thrown? <==> count == 0
    ensures r.Thrown? ==> r.fault == DivideByZero
    ensures count > 0 && 0 <= count + index < 3 * count ==>
      r.Ok? && 0 <= r.value < count && (r.value == index || r.value == index + count || r.value == index - count)
  {
    if count == 0 then Thrown(DivideByZero)
    else
      var q, r := Quotient(count + index, count), Remainder(count + index, count);
      SmallQuotient(count + index, count, q, r);
      Ok(r)
  }

  /** A dividend in `[0, 3 * n)` has a quotient of 0, 1 or 2, so the
      remainder differs from it by at most two multiples of `n`. */
  lemma SmallQuotient(a: int, n: int, q: int, r: int)
    requires n > 0 && a == q * n + r && (a >= 0 ==> 0 <= r < n)
    ensures 0 <= a < 3 * n ==> (q == 0 && r == a) || (q == 1 && r == a - n) || (q == 2 && r == a - 2 * n)
  {
  }

  /** Wrap-around is exact at both ends: one step past either end lands on
      the other end, and a cursor already in range is kept. */
  lemma NormalizeExact(count: nat, index: int)
    requires count > 0 && -1 <= index <= count
    ensures Normalize(count, index) == Ok(if index == -1 then count - 1 else if index == count then 0 else index)
  {
  }

  /** The wrap-around as written, with `count + index` evaluated in 32-bit
      `int` arithmetic. It agrees with `Normalize` as long as the sum fits;
      past that the sum wraps to a negative number. */
  function NormalizeInt32(count: nat, index: int): (r: Outcome<int>)
    requires count <= Int32Max && Int32Min <= index <= Int32Max
    ensures r.Thrown? <==> count == 0
    ensures count + index <= Int32Max ==> r == Normalize(count, index)
  {
    if count == 0 then Thrown(DivideByZero) else Ok(Remainder(WrapInt32(count + index), count))
  }

  /** On a list of 2^30 + 1 elements with the cursor on the last one, any
      key that leaves the cursor alone makes the 32-bit wrap-around send it
      to a negative position, where the exact one keeps it in place. */
  lemma CursorSumOverflows()
    ensures NormalizeInt32(0x4000_0001, 0x4000_0000) == Ok(-0x3FFF_FFFE)
    ensures Normalize(0x4000_0001, 0x4000_0000) == Ok(0x4000_0000)
  {
    NormalizeExact(0x4000_0001, 0x4000_0000);
  }

  /** One pass of the loop body: dispatch on the key, then wrap the cursor.
      From a valid state it never raises and yields a valid state; on the
      empty list it starts from, every key but tab raises. */
  function Next<T>(s: State<T>, key: Key, value: T): (r: Outcome<State<T>>)
    ensures Valid(s) ==> r.Ok? && Valid(r.value)
    ensures s == Start([]) ==> (r.Ok? <==> key == Tab)
  {
    match Dispatch(s, key, value)
    case Thrown(e) => Thrown(e)
    case Ok(d) =>
      match Normalize(|d.items|, d.index)
      case Thrown(e) => Thrown(e)
      case Ok(i) => Ok(d.(index := i))
  }

  /** A closed-form description of what one pass of the loop body does to
      a valid state, written without modular arithmetic: the arrows move the
      cursor circularly, the space bar replaces the highlighted value, tab
      appends, delete and backspace remove the highlighted value unless it
      is the only one (a cursor on the last element then goes to the
      first), and every other key does nothing. */
  function Intended<T>(s: State<T>, key: Key, value: T): (r: State<T>)
    requires Valid(s)
    ensures Valid(r)
  {
    var n, i := |s.items|, s.index;
    match key
    case RightArrow => s.(index := if i == n - 1 then 0 else i + 1)
    case LeftArrow => s.(index := if i == 0 then n - 1 else i - 1)
    case Spacebar => s.(items := s.items[i := value])
    case Tab => s.(items := s.items + [value])
    case Delete | Backspace =>
      if n == 1 then s
      else State(s.items[..i] + s.items[i + 1..], if i == n - 1 then 0 else i)
    case Enter | Other => s
  }

  /** From a valid state, the loop body does exactly what the closed form
      describes. */
  lemma StepMatchesIntended<T>(s: State<T>, key: Key, value: T)
    requires Valid(s)
    ensures Next(s, key, value) == Ok(Intended(s, key, value))
  {
    var d := Dispatch(s, key, value);
    assert d.Ok?;
    NormalizeExact(|d.value.items|, d.value.index);
  }

  /** The arrows move the cursor by exactly one, wrapping at both ends, and
      leave the list alone. */
  lemma ArrowsWrapAround<T>(s: State<T>, value: T)
    requires Valid(s)
    ensures Next(s, RightArrow, value) == Ok(s.(index := if s.index == |s.items| - 1 then 0 else s.index + 1))
    ensures Next(s, LeftArrow, value) == Ok(s.(index := if s.index == 0 then |s.items| - 1 else s.index - 1))
  {
    StepMatchesIntended(s, RightArrow, value);
    StepMatchesIntended(s, LeftArrow, value);
  }

  /** The space bar overwrites the highlighted value and nothing else. */
  lemma SpacebarReplacesOnlyCursor<T>(s: State<T>, value: T)
    requires Valid(s)
    ensures Next(s, Spacebar, value).Ok?
    ensures var t := Next(s, Spacebar, value).value;
      |t.items| == |s.items| && t.index == s.index && t.items[s.index] == value &&
      forall j :: 0 <= j < |s.items| && j != s.index ==> t.items[j] == s.items[j]
  {
    StepMatchesIntended(s, Spacebar, value);
  }

  /** Tab appends one value after the last and leaves the old elements and
      the cursor where they were. */
  lemma TabAppends<T>(s: State<T>, value: T)
    requires Valid(s)
    ensures Next(s, Tab, value).Ok?
    ensures var t := Next(s, Tab, value).value;
      |t.items| == |s.items| + 1 && t.items[|s.items|] == value &&
      t.items[..|s.items|] == s.items && t.index == s.index
  {
    StepMatchesIntended(s, Tab, value);
  }

  /** Delete and backspace on a list of one element change nothing. */
  lemma DeleteKeepsLastElement<T>(s: State<T>, key: Key, value: T)
    requires Valid(s) && |s.items| == 1
    requires key == Delete || key == Backspace
    ensures Next(s, key, value) == Ok(s)
  {
    StepMatchesIntended(s, key, value);
  }

  /** On a longer list, delete and backspace remove exactly the highlighted
      element: the elements before it stay, the ones after it move down by
      one, and the cursor stays put unless it was on the last element, in
      which case it goes to the first. */
  lemma DeleteRemovesCursorElement<T>(s: State<T>, key: Key, value: T)
    requires Valid(s) && |s.items| > 1
    requires key == Delete || key == Backspace
    ensures Next(s, key, value).Ok?
    ensures var t := Next(s, key, value).value;
      |t.items| == |s.items| - 1 &&
      (forall j :: 0 <= j < s.index ==> t.items[j] == s.items[j]) &&
      (forall j :: s.index <= j < |t.items| ==> t.items[j] == s.items[j + 1]) &&
      t.index == if s.index == |s.items| - 1 then 0 else s.index
  {
    StepMatchesIntended(s, key, value);
  }

  /** Enter and any key without a binding change neither the list nor the
      cursor. */
  lemma UnboundKeysChangeNothing<T>(s: State<T>, key: Key, value: T)
    requires Valid(s)
    requires key == Enter || key == Other
    ensures Next(s, key, value) == Ok(s)
  {
    StepMatchesIntended(s, key, value);
  }

  /** The loop body on the caller's list, changed in place. `index` is the
      cursor before the key; the result is the cursor after it, or the
      exception the body raises, in which case the list is as it was. */
  method Step<T>(items: ItemList<T>, index: int, key: Key, value: T) returns (next: Outcome<int>)
    modifies items
    ensures Next(State(old(items.elems), index), key, value).Ok? ==>
      var t := Next(State(old(items.elems), index), key, value).value;
      next == Ok(t.index) && items.elems == t.items
    ensures Next(State(old(items.elems), index), key, value).Thrown? ==>
      next == Thrown(Next(State(old(items.elems), index), key, value).fault) && items.elems == old(items.elems)
  {
    ghost var before := State(items.elems, index);
    var i := index;
    if key == RightArrow {
      i := i + 1;
    } else if key == LeftArrow {
      i := i - 1;
    } else if key == Spacebar {
      var ok := items.Set(i, value);
      if !ok {
        return Thrown(ArgumentOutOfRange);
      }
    } else if key == Tab {
      items.Add(value);
    } else if (key == Delete || key == Backspace) && items.Count() != 1 {
      var ok := items.RemoveAt(i);
      if !ok {
        return Thrown(ArgumentOutOfRange);
      }
    }
    assert Dispatch(before, key, value) == Ok(State(items.elems, i));
    var count := items.Count();
    if count == 0 {
      return Thrown(DivideByZero);
    }
    next := Ok(Remainder(count + i, count));
  }

  /** One key press of a session: the key, and what converting the line
      typed afterwards came to (read only for the space bar and tab). */
  datatype Event<T> = Event(key: Key, entry: Option<T>)

  /** How a session over a finite run of key presses ended: still waiting
      for more keys, confirmed with Enter, or stopped by an exception. */
  datatype Status = Waiting | Confirmed | Crashed(fault: Exception)

  datatype Session<T> = Session(state: State<T>, pressed: nat, status: Status)

  /** The loop over a finite run of key presses, one body per key, stopping
      after the first Enter (or the first exception). `pressed` counts the
      keys read; only a session that ran out of keys is still waiting. */
  function Run<T>(s: State<T>, events: seq<Event<T>>, defaultValue: T): (r: Session<T>)
    ensures r.pressed <= |events|
    ensures r.status == Waiting ==> r.pressed == |events|
    ensures r.status != Waiting ==> r.pressed >= 1
    decreases |events|
  {
    if events == [] then Session(s, 0, Waiting)
    else
      var e := events[0];
      match Next(s, e.key, ReadValue(e.entry, defaultValue))
      case Thrown(f) => Session(s, 1, Crashed(f))
      case Ok(t) =>
        if e.key == Enter then Session(t, 1, Confirmed)
        else
          var rest := Run(t, events[1..], defaultValue);
          rest.(pressed := rest.pressed + 1)
  }

  /** `EditItems` over a finite run of key presses: it edits the caller's
      list in place, starting with the cursor on the first element, and
      reads keys until Enter. Returns how many keys it read and how the
      session ended. */
  method EditItems<T>(items: ItemList<T>, events: seq<Event<T>>, defaultValue: T) returns (pressed: nat, status: Status)
    modifies items
    ensures var r := Run(Start(old(items.elems)), events, defaultValue);
      items.elems == r.state.items && pressed == r.pressed && status == r.status
  {
    ghost var run := Run(Start(items.elems), events, defaultValue);
    var index := 0;
    pressed, status := 0, Waiting;
    while status == Waiting && pressed < |events|
      invariant pressed <= |events|
      invariant status == Waiting ==>
        var rest := Run(State(items.elems, index), events[pressed..], defaultValue);
        run == rest.(pressed := rest.pressed + pressed)
      invariant status != Waiting ==> run == Session(State(items.elems, index), pressed, status)
      decreases |events| - pressed, status == Waiting
    {
      var event := events[pressed];
      ghost var before := State(items.elems, index);
      assert events[pressed..][1..] == events[pressed + 1..];
      var next := Step(items, index, event.key, ReadValue(event.entry, defaultValue));
      pressed := pressed + 1;
      match next
      case Thrown(e) =>
        status := Crashed(e);
      case Ok(i) =>
        index := i;
        if event.key == Enter {
          status := Confirmed;
        }
    }
  }
}

/** Properties of whole editing sessions. */
module Sessions {
  import opened DotNet
  import opened ConsoleReader
  import opened InteractiveSetEditor

  /** The list is never empty and the cursor always points into it, after
      every key of a session that starts in a valid state; such a session
      never raises. */
  lemma {:induction false} RunKeepsValid<T>(s: State<T>, events: seq<Event<T>>, defaultValue: T)
    requires Valid(s)
    ensures Valid(Run(s, events, defaultValue).state)
    ensures !Run(s, events, defaultValue).status.Crashed?
    decreases |events|
  {
    if events != [] {
      var t := Next(s, events[0].key, ReadValue(events[0].entry, defaultValue));
      if events[0].key != Enter {
        RunKeepsValid(t.value, events[1..], defaultValue);
      }
    }
  }

  /** The session stops exactly on the first Enter: no key before the last
      one read is Enter, and a confirmed session's last key is Enter. */
  lemma {:induction false} RunStopsAtFirstEnter<T>(s: State<T>, events: seq<Event<T>>, defaultValue: T)
    ensures forall j :: 0 <= j < Run(s, events, defaultValue).pressed - 1 ==> events[j].key != Enter
    ensures Run(s, events, defaultValue).status == Confirmed ==>
      events[Run(s, events, defaultValue).pressed - 1].key == Enter
    decreases |events|
  {
    if events != [] {
      var e := events[0];
      var n := Next(s, e.key, ReadValue(e.entry, defaultValue));
      if n.Ok? && e.key != Enter {
        RunStopsAtFirstEnter(n.value, events[1..], defaultValue);
        assert forall j :: 1 <= j < |events| ==> events[j] == events[1..][j - 1];
      }
    }
  }

  /** From a valid state, a session is confirmed exactly when one of its
      keys is Enter. */
  lemma {:induction false} RunConfirmedIffEnter<T>(s: State<T>, events: seq<Event<T>>, defaultValue: T)
    requires Valid(s)
    ensures Run(s, events, defaultValue).status == Confirmed <==> exists j :: 0 <= j < |events| && events[j].key == Enter
    decreases |events|
  {
    if events != [] {
      var e := events[0];
      var n := Next(s, e.key, ReadValue(e.entry, defaultValue));
      if e.key != Enter {
        RunConfirmedIffEnter(n.value, events[1..], defaultValue);
        assert forall j :: 1 <= j < |events| ==> events[j] == events[1..][j - 1];
      }
    }
  }

  /** Keys pressed after the session has ended are never read. */
  lemma {:induction false} RunIgnoresLaterKeys<T>(s: State<T>, events: seq<Event<T>>, later: seq<Event<T>>, defaultValue: T)
    requires Run(s, events, defaultValue).status != Waiting
    ensures Run(s, events + later, defaultValue) == Run(s, events, defaultValue)
    decreases |events|
  {
    var e := events[0];
    assert (events + later)[0] == e;
    var n := Next(s, e.key, ReadValue(e.entry, defaultValue));
    if n.Ok? && e.key != Enter {
      assert (events + later)[1..] == events[1..] + later;
      RunIgnoresLaterKeys(n.value, events[1..], later, defaultValue);
    }
  }

  /** On an empty list the first key decides: tab makes the list valid and
      the session goes on without ever raising; every other key raises. */
  lemma EmptyListNeedsTabFirst<T>(events: seq<Event<T>>, defaultValue: T)
    requires events != []
    ensures Run(Start([]), events, defaultValue).status.Crashed? <==> events[0].key != Tab
  {
    var e := events[0];
    var n := Next(Start([]), e.key, ReadValue(e.entry, defaultValue));
    if e.key == Tab {
      RunKeepsValid(n.value, events[1..], defaultValue);
    }
  }

  /** Moving right twice, typing 99 over the third value, appending 5 and
      confirming edits 26, 10, -13, 17, 3 into 26, 10, 99, 17, 3, 5. */
  lemma EditScenario()
    ensures
      var events := [Event(RightArrow, None), Event(RightArrow, None), Event(Spacebar, Some(99)),
                     Event(Tab, Some(5)), Event(Enter, None)];
      Run(Start([26, 10, -13, 17, 3]), events, 0) == Session(State([26, 10, 99, 17, 3, 5], 2), 5, Confirmed)
  {
    var events := [Event(RightArrow, None), Event(RightArrow, None), Event(Spacebar, Some(99)),
                   Event(Tab, Some(5)), Event(Enter, None)];
    var s0 := Start([26, 10, -13, 17, 3]);
    var s1 := State([26, 10, -13, 17, 3], 1);
    var s2 := State([26, 10, -13, 17, 3], 2);
    var s3 := State([26, 10, 99, 17, 3], 2);
    var s4 := State([26, 10, 99, 17, 3, 5], 2);
    StepMatchesIntended(s4, Enter, 0);
    assert Run(s4, events[4..], 0) == Session(s4, 1, Confirmed);
    StepMatchesIntended(s3, Tab, 5);
    assert events[3..][1..] == events[4..];
    assert Run(s3, events[3..], 0) == Session(s4, 2, Confirmed);
    StepMatchesIntended(s2, Spacebar, 99);
    assert s2.items[2 := 99] == s3.items;
    assert events[2..][1..] == events[3..];
    assert Run(s2, events[2..], 0) == Session(s4, 3, Confirmed);
    StepMatchesIntended(s1, RightArrow, 0);
    assert events[1..][1..] == events[2..];
    assert Run(s1, events[1..], 0) == Session(s4, 4, Confirmed);
    StepMatchesIntended(s0, RightArrow, 0);
  }

  /** A value that does not convert is stored as the default: the space bar
      with unreadable input on an integer list writes 0. */
  lemma UnreadableInputStoresDefault(s: State<int>)
    requires Valid(s)
    ensures Run(s, [Event(Spacebar, None)], 0) == Session(s.(items := s.items[s.index := 0]), 1, Waiting)
  {
    StepMatchesIntended(s, Spacebar, 0);
  }

  /** Deleting from a one-element list is refused; the list stays [1]. */
  lemma SingletonScenario()
    ensures Run(Start([1]), [Event(Delete, None), Event(Enter, None)], 0) == Session(Start([1]), 2, Confirmed)
  {
    DeleteKeepsLastElement(Start([1]), Delete, 0);
    UnboundKeysChangeNothing(Start([1]), Enter, 0);
    var events: seq<Event<int>> := [Event(Delete, None), Event(Enter, None)];
    assert events[1..] == [Event(Enter, None)];
  }

  /** The caller's side of an edit: Main's list of five integers is copied,
      edited in place by `EditItems` with the key presses of `EditScenario`,
      and both the copy and the edited list are handed back. */
  method EditDefaultList() returns (original: seq<int>, edited: seq<int>, status: Status)
    ensures original == [26, 10, -13, 17, 3]
    ensures edited == [26, 10, 99, 17, 3, 5]
    ensures status == Confirmed
  {
    var list := new ItemList([26, 10, -13, 17, 3]);
    original := list.elems;
    var events := [Event(RightArrow, None), Event(RightArrow, None), Event(Spacebar, Some(99)),
                   Event(Tab, Some(5)), Event(Enter, None)];
    EditScenario();
    var pressed;
    pressed, status := EditItems(list, events, 0);
    edited := list.elems;
  }
}
