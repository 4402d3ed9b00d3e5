/** The typewriter effect of the portfolio's hero subtitle: a state machine that
    types a phrase one character per tick, pauses, deletes it one character per
    tick, and moves on to the next phrase, cycling forever over a fixed,
    non-empty phrase list.

    The component's timers are abstract events here. At every moment exactly
    one timer is pending: a typing tick, a deleting tick, or the one-shot pause.
    `Step` says what happens when it fires, `PendingDelay` how long it waits. */
module Typewriter {
  import opened JsString

  /** Typing and Deleting are the two values of the source's `isDeleting` cell;
      Pausing is "not deleting, and the 2000 ms pause is armed": the tick that arms
      the pause leaves the state as it was, so no further tick is scheduled. */
  datatype Mode = Typing | Pausing | Deleting

  /** The three state cells: the phrase index, the text on display, and the mode. */
  datatype State = State(index: nat, text: string, mode: Mode)

  const TypingDelay: nat := 100
  const DeletingDelay: nat := 50
  const PauseDelay: nat := 2000

  /** The state every widget starts in: index 0, nothing on display, typing. It
      is consistent for the non-empty phrase list it is mounted with. */
  function Initial(texts: seq<string>): (r: State)
    requires 0 < |texts|
    ensures Consistent(texts, r)
  {
    State(0, [], Typing)
  }

  /** What holds in every reachable state: the index names a phrase, the text on
      display is a prefix of that phrase, and a pause only follows a full phrase. */
  predicate Consistent(texts: seq<string>, s: State)
  {
    0 < |texts| && s.index < |texts| && s.text <= texts[s.index] &&
    (s.mode == Pausing ==> s.text == texts[s.index])
  }

  /** The delay of the timer that is pending in mode m: 50 ms per deleting tick,
      100 ms per typing tick, 2000 ms for the pause. */
  function PendingDelay(m: Mode): (d: nat)
    ensures d == DeletingDelay <==> m == Deleting
    ensures d == TypingDelay <==> m == Typing
    ensures d == PauseDelay <==> m == Pausing
  {
    match m
    case Typing => TypingDelay
    case Deleting => DeletingDelay
    case Pausing => PauseDelay
  }

  /** The state after the pending timer fires. A tick takes substring(0, |text| ± 1)
      of the current phrase, and decides on the text as it was BEFORE the tick: a
      typing tick arms the pause when the old text was already the full phrase, a
      deleting tick moves to the next phrase when the old text was already empty. */
  function Step(texts: seq<string>, s: State): (r: State)
    requires 0 < |texts| && s.index < |texts|
    ensures r.index < |texts|
    ensures r.index != s.index ==> s.mode == Deleting && s.text == []
  {
    var phrase := texts[s.index];
    match s.mode
    case Pausing =>
      State(s.index, s.text, Deleting)
    case Deleting =>
      var t := SubstringFromZero(phrase, |s.text| - 1);
      if s.text == [] then State((s.index + 1) % |texts|, t, Typing)
      else State(s.index, t, Deleting)
    case Typing =>
      var t := SubstringFromZero(phrase, |s.text| + 1);
      if s.text == phrase then State(s.index, t, Pausing)
      else State(s.index, t, Typing)
  }

  /** Every step keeps the state consistent: the text stays a prefix of the
      current phrase, including across the step that changes the phrase. */
  lemma StepPreservesConsistent(texts: seq<string>, s: State)
    requires Consistent(texts, s)
    ensures Consistent(texts, Step(texts, s))
  {
  }

  /** A typing tick on a text shorter than the phrase appends the phrase's next
      character and keeps typing. */
  lemma TypingTickAppendsNext(texts: seq<string>, s: State)
    requires Consistent(texts, s) && s.mode == Typing && |s.text| < |texts[s.index]|
    ensures Step(texts, s) == State(s.index, s.text + [texts[s.index][|s.text|]], Typing)
  {
  }

  /** A typing tick on the full phrase changes neither text nor index: it only
      arms the pause. */
  lemma TypingTickOnFullPhraseArmsPause(texts: seq<string>, s: State)
    requires Consistent(texts, s) && s.mode == Typing && s.text == texts[s.index]
    ensures Step(texts, s) == State(s.index, s.text, Pausing)
  {
  }

  /** A deleting tick on a non-empty text removes exactly its last character. */
  lemma DeletingTickRemovesLast(texts: seq<string>, s: State)
    requires Consistent(texts, s) && s.mode == Deleting && s.text != []
    ensures Step(texts, s) == State(s.index, s.text[..|s.text| - 1], Deleting)
  {
  }

  /** A deleting tick on the empty text leaves it empty, stops deleting, and moves
      to the next phrase, wrapping round to the first. */
  lemma DeletingTickOnEmptyAdvances(texts: seq<string>, s: State)
    requires 0 < |texts| && s.index < |texts| && s.mode == Deleting && s.text == []
    ensures Step(texts, s) == State((s.index + 1) % |texts|, [], Typing)
  {
  }

  /** Deleting stops exactly on a deleting tick that starts from the empty text,
      and nothing else moves the index. The pause completion only starts deleting. */
  lemma ModeChanges(texts: seq<string>, s: State)
    requires 0 < |texts| && s.index < |texts|
    ensures s.mode == Deleting ==> (Step(texts, s).mode == Typing <==> s.text == [])
    ensures s.mode == Deleting ==> Step(texts, s).mode != Pausing
    ensures s.mode == Pausing ==> Step(texts, s) == State(s.index, s.text, Deleting)
    ensures s.mode == Typing ==> Step(texts, s).mode != Deleting && Step(texts, s).index == s.index
  {
  }

  /** The state after k timers have fired from s. */
  function Run(texts: seq<string>, s: State, k: nat): (r: State)
    requires 0 < |texts| && s.index < |texts|
    ensures r.index < |texts|
    decreases k
  {
    if k == 0 then s else Run(texts, Step(texts, s), k - 1)
  }

  /** The time, in milliseconds, that the first k timers from s take together:
      each of them waits at least the 50 ms of a deleting tick and at most the
      2000 ms of the pause. */
  function Elapsed(texts: seq<string>, s: State, k: nat): (t: nat)
    requires 0 < |texts| && s.index < |texts|
    ensures DeletingDelay * k <= t <= PauseDelay * k
    decreases k
  {
    if k == 0 then 0 else PendingDelay(s.mode) + Elapsed(texts, Step(texts, s), k - 1)
  }

  /** Every reachable state is consistent: Consistent is an invariant of Run. */
  lemma {:induction false} RunPreservesConsistent(texts: seq<string>, s: State, k: nat)
    requires Consistent(texts, s)
    ensures Consistent(texts, Run(texts, s, k))
    decreases k
  {
    if k > 0 {
      StepPreservesConsistent(texts, s);
      RunPreservesConsistent(texts, Step(texts, s), k - 1);
    }
  }

  /** Running a + b timers is running a, then b more from where those stopped,
      and takes the time of the first a plus that of the b that follow. */
  lemma {:induction false} RunAdditive(texts: seq<string>, s: State, a: nat, b: nat)
    requires 0 < |texts| && s.index < |texts|
    ensures Run(texts, s, a + b) == Run(texts, Run(texts, s, a), b)
    ensures Elapsed(texts, s, a + b) == Elapsed(texts, s, a) + Elapsed(texts, Run(texts, s, a), b)
    decreases a
  {
    if a > 0 {
      RunAdditive(texts, Step(texts, s), a - 1, b);
    }
  }

  /** From a typed prefix of length j, k more typing ticks (j + k <= L) show the
      phrase's first j + k characters, taking 100 ms each. */
  lemma {:induction false} TypingRun(texts: seq<string>, i: nat, j: nat, k: nat)
    requires 0 < |texts| && i < |texts| && j + k <= |texts[i]|
    ensures Run(texts, State(i, texts[i][..j], Typing), k) == State(i, texts[i][..j + k], Typing)
    ensures Elapsed(texts, State(i, texts[i][..j], Typing), k) == TypingDelay * k
    decreases k
  {
    if k > 0 {
      var p := texts[i];
      TypingTickAppendsNext(texts, State(i, p[..j], Typing));
      assert p[..j] + [p[j]] == p[..j + 1];
      TypingRun(texts, i, j + 1, k - 1);
    }
  }

  /** From a prefix of length j, k <= j deleting ticks remove its last k
      characters, taking 50 ms each. */
  lemma {:induction false} DeletingRun(texts: seq<string>, i: nat, j: nat, k: nat)
    requires 0 < |texts| && i < |texts| && k <= j <= |texts[i]|
    ensures Run(texts, State(i, texts[i][..j], Deleting), k) == State(i, texts[i][..j - k], Deleting)
    ensures Elapsed(texts, State(i, texts[i][..j], Deleting), k) == DeletingDelay * k
  {
    if k > 0 {
      var p := texts[i];
      DeletingTickRemovesLast(texts, State(i, p[..j], Deleting));
      assert p[..j][..j - 1] == p[..j - 1];
      DeletingRun(texts, i, j - 1, k - 1);
    }
  }

  /** The number of timers one cycle over phrase p takes: |p| + 1 typing ticks
      (the last arms the pause), the pause, |p| + 1 deleting ticks (the last
      moves on). */
  function CycleLength(p: string): (n: nat)
  {
    2 * |p| + 3
  }

  /** The first L + 3 timers of a cycle over a phrase of length L: L typing ticks
      show the phrase, the next one arms the pause, the pause starts deleting. */
  lemma {:induction false} TypeAndPause(texts: seq<string>, i: nat)
    requires 0 < |texts| && i < |texts|
    ensures Run(texts, State(i, [], Typing), |texts[i]| + 2) == State(i, texts[i], Deleting)
    ensures Elapsed(texts, State(i, [], Typing), |texts[i]| + 2)
         == TypingDelay * (|texts[i]| + 1) + PauseDelay
  {
    var p := texts[i];
    var L := |p|;
    var start, typed := State(i, [], Typing), State(i, p, Typing);
    assert p[..0] == [] && p[..L] == p;
    TypingRun(texts, i, 0, L);
    RunAdditive(texts, start, L, 2);
    TypingTickOnFullPhraseArmsPause(texts, typed);
    assert Run(texts, typed, 2) == State(i, p, Deleting);
    assert Elapsed(texts, typed, 2) == TypingDelay + PauseDelay;
  }

  /** The last L + 1 timers of a cycle: L deleting ticks empty the text, one more
      moves on to the next phrase. */
  lemma {:induction false} DeleteAndAdvance(texts: seq<string>, i: nat)
    requires 0 < |texts| && i < |texts|
    ensures Run(texts, State(i, texts[i], Deleting), |texts[i]| + 1)
         == State((i + 1) % |texts|, [], Typing)
    ensures Elapsed(texts, State(i, texts[i], Deleting), |texts[i]| + 1)
         == DeletingDelay * (|texts[i]| + 1)
  {
    var p := texts[i];
    var L := |p|;
    var full, empty := State(i, p, Deleting), State(i, [], Deleting);
    assert p[..L] == p && p[..0] == [];
    DeletingRun(texts, i, L, L);
    RunAdditive(texts, full, L, 1);
    DeletingTickOnEmptyAdvances(texts, empty);
    assert Run(texts, empty, 1) == State((i + 1) % |texts|, [], Typing);
    assert Elapsed(texts, empty, 1) == DeletingDelay;
  }

  /** One full type, pause and delete cycle from (i, "", Typing) ends at
      (i + 1 mod n, "", Typing), and takes 150 ms per tick pair plus the pause. */
  lemma CycleFrom(texts: seq<string>, i: nat)
    requires 0 < |texts| && i < |texts|
    ensures Run(texts, State(i, [], Typing), CycleLength(texts[i]))
         == State((i + 1) % |texts|, [], Typing)
    ensures Elapsed(texts, State(i, [], Typing), CycleLength(texts[i]))
         == (TypingDelay + DeletingDelay) * (|texts[i]| + 1) + PauseDelay
  {
    var L := |texts[i]|;
    TypeAndPause(texts, i);
    DeleteAndAdvance(texts, i);
    RunAdditive(texts, State(i, [], Typing), L + 2, L + 1);
  }

  /** The phrase index k cycles after phrase i: the step (index + 1) % n,
      applied k times. */
  function IndexAfter(texts: seq<string>, i: nat, k: nat): (j: nat)
    requires 0 < |texts| && i < |texts|
    ensures j < |texts|
  {
    if k == 0 then i else (IndexAfter(texts, i, k - 1) + 1) % |texts|
  }

  /** The number of timers k consecutive cycles take, starting at phrase i. */
  function CyclesLength(texts: seq<string>, i: nat, k: nat): (n: nat)
    requires 0 < |texts| && i < |texts|
  {
    if k == 0 then 0
    else CyclesLength(texts, i, k - 1) + CycleLength(texts[IndexAfter(texts, i, k - 1)])
  }

  /** Arithmetic helpers for the wrap-around of the phrase index. */
  lemma MulAtLeast(d: int, n: nat)
    requires d >= 1
    ensures d * n >= n
  {
  }

  /** Euclidean remainder is determined by any quotient-remainder decomposition. */
  lemma ModUnique(x: int, q: int, r: int, n: nat)
    requires 0 < n && 0 <= r < n && x == q * n + r
    ensures x % n == r
  {
    var q', r' := x / n, x % n;
    assert (q - q') * n == r' - r;
    if q - q' >= 1 {
      MulAtLeast(q - q', n);
    } else if q' - q >= 1 {
      MulAtLeast(q' - q, n);
    }
  }

  /** Taking the remainder before adding one does not change the wrapped result. */
  lemma ModSucc(j: nat, n: nat)
    requires 0 < n
    ensures (j % n + 1) % n == (j + 1) % n
  {
    var q, r := j / n, j % n;
    assert j == q * n + r;
    if r + 1 < n {
      ModUnique(r + 1, 0, r + 1, n);
      ModUnique(j + 1, q, r + 1, n);
    } else {
      assert (q + 1) * n == q * n + n;
      ModUnique(r + 1, 1, 0, n);
      ModUnique(j + 1, q + 1, 0, n);
    }
  }

  /** One more phrase step keeps IndexAfter equal to the remainder of the sum. */
  lemma IndexAfterStep(texts: seq<string>, i: nat, k: nat)
    requires 0 < |texts| && i < |texts| && IndexAfter(texts, i, k) == (i + k) % |texts|
    ensures IndexAfter(texts, i, k + 1) == (i + k + 1) % |texts|
  {
    ModSucc(i + k, |texts|);
  }

  /** Moving on k phrases from phrase i lands on phrase (i + k) mod n. */
  lemma {:induction false} IndexAfterIsMod(texts: seq<string>, i: nat, k: nat)
    requires 0 < |texts| && i < |texts|
    ensures IndexAfter(texts, i, k) == (i + k) % |texts|
  {
    if k == 0 {
      ModUnique(i, 0, i, |texts|);
    } else {
      IndexAfterIsMod(texts, i, k - 1);
      IndexAfterStep(texts, i, k - 1);
    }
  }

  /** After k complete cycles from (i, "", Typing) the display is empty and the
      index has moved on k phrases. */
  lemma {:induction false} Cycles(texts: seq<string>, i: nat, k: nat)
    requires 0 < |texts| && i < |texts|
    ensures Run(texts, State(i, [], Typing), CyclesLength(texts, i, k))
         == State(IndexAfter(texts, i, k), [], Typing)
  {
    if k > 0 {
      var start := State(i, [], Typing);
      var j := IndexAfter(texts, i, k - 1);
      var m := CyclesLength(texts, i, k - 1);
      var c := CycleLength(texts[j]);
      Cycles(texts, i, k - 1);
      RunAdditive(texts, start, m, c);
      CycleFrom(texts, j);
      assert Run(texts, start, m + c) == Run(texts, State(j, [], Typing), c);
    }
  }

  /** After k complete cycles from the initial state the display is empty and
      the index is k mod n. */
  lemma CyclesFromInitial(texts: seq<string>, k: nat)
    requires 0 < |texts|
    ensures Run(texts, Initial(texts), CyclesLength(texts, 0, k)) == State(k % |texts|, [], Typing)
  {
    Cycles(texts, 0, k);
    IndexAfterIsMod(texts, 0, k);
  }

  /** One cycle per phrase brings the widget back to its initial state. */
  lemma RoundTripToInitial(texts: seq<string>)
    requires 0 < |texts|
    ensures Run(texts, Initial(texts), CyclesLength(texts, 0, |texts|)) == Initial(texts)
  {
    CyclesFromInitial(texts, |texts|);
  }

  /** The trace of the phrase list ["Hi", "Yo"]: the pause is armed by the third
      tick, not the second, and the index moves on the third deleting tick. */
  lemma HiYoTrace()
    ensures Run(["Hi", "Yo"], Initial(["Hi", "Yo"]), 2) == State(0, "Hi", Typing)
    ensures Run(["Hi", "Yo"], Initial(["Hi", "Yo"]), 3) == State(0, "Hi", Pausing)
    ensures Run(["Hi", "Yo"], Initial(["Hi", "Yo"]), 4) == State(0, "Hi", Deleting)
    ensures Run(["Hi", "Yo"], Initial(["Hi", "Yo"]), 6) == State(0, "", Deleting)
    ensures Run(["Hi", "Yo"], Initial(["Hi", "Yo"]), 7) == State(1, "", Typing)
    ensures Run(["Hi", "Yo"], Initial(["Hi", "Yo"]), 9) == State(1, "Yo", Typing)
  {
  }

  /** One mounted typewriter widget: the phrase list it was given and its three
      state cells, overwritten by each timer callback. */
  class TypewriterText {
    const texts: seq<string>
    var index: nat
    var text: string
    var mode: Mode

    /** The state cells as one value. */
    function Snapshot(): State
      reads this
    {
      State(index, text, mode)
    }

    ghost predicate Valid()
      reads this
    {
      Consistent(texts, Snapshot())
    }

    /** Mounting: index 0, nothing on display, typing. */
    constructor (texts: seq<string>)
      requires 0 < |texts|
      ensures Valid() && this.texts == texts
      ensures index == 0 && text == [] && mode == Typing
      ensures Snapshot() == Initial(texts)
    {
      this.texts := texts;
      index := 0;
      text := [];
      mode := Typing;
    }

    /** The tick timer fires: type or delete one character of the current phrase. */
    method Tick()
      requires Valid() && mode != Pausing
      modifies this
      ensures Valid() && Snapshot() == Step(texts, old(Snapshot()))
      ensures index != old(index) ==> old(mode) == Deleting && old(text) == []
    {
      ghost var was := Snapshot();
      var phrase := texts[index];
      var before := text;
      if mode == Deleting {
        text := SubstringFromZero(phrase, |before| - 1);
        if before == [] {
          mode := Typing;
          index := (index + 1) % |texts|;
        }
      } else {
        text := SubstringFromZero(phrase, |before| + 1);
        if before == phrase {
          mode := Pausing;
        }
      }
      StepPreservesConsistent(texts, was);
    }

    /** The 2000 ms pause fires: start deleting, with text and index unchanged. */
    method PauseElapsed()
      requires Valid() && mode == Pausing
      modifies this
      ensures Valid() && Snapshot() == Step(texts, old(Snapshot()))
      ensures index == old(index) && text == old(text) && mode == Deleting
    {
      mode := Deleting;
    }
  }
}
