// Examples/Common/ExampleMailbox.c: one thread asks, the owner answers.

module Mailbox {
  import opened Bytes

  const ITEM_SIZE: nat := 4096
  const TEXT_SIZE: nat := 256

  datatype BoxState = Empty | Posted | Taken | Answered

  /** The mailbox's fields, all read and written under its lock. */
  datatype Box = Box(state: BoxState, item: seq<Byte>, result: nat, text: string)

  /** A text as far as there is room for it and its terminating null. */
  function CutText(text: string): (t: string)
    ensures t <= text && |t| < TEXT_SIZE
    ensures if |text| <= 255 then t == text else |t| == 255
  {
    if |text| < TEXT_SIZE then text else text[..TEXT_SIZE - 1]
  }

  // ---------------------------------------------------------------- What each call does, on values

  /** Asking, up to the wait. */
  function Post(b: Box, item: seq<Byte>): (Box, bool) {
    if |item| > ITEM_SIZE || b.state != Empty then (b, false)
    else (b.(state := Posted, item := item), true)
  }

  /** Asking, from the end of the wait: an item not answered is withdrawn. */
  function Finish(b: Box): (Box, bool) {
    (b.(state := Empty), b.state == Answered)
  }

  function Take(b: Box, size: nat): (Box, bool) {
    if b.state == Posted && |b.item| <= size then (b.(state := Taken), true) else (b, false)
  }

  function Answer(b: Box, result: nat, text: string): Box {
    if b.state == Taken then b.(state := Answered, result := result, text := CutText(text)) else b
  }

  // ---------------------------------------------------------------- The calls

  /** A mailbox; each method is what happens under the lock at once. */
  class ExampleMailbox {
    var state: BoxState
    var item: seq<Byte>
    var result: nat
    var text: string

    ghost function Value(): Box
      reads this
    {
      Box(state, item, result, text)
    }

    constructor ()
      ensures Value() == Box(Empty, [], 0, "")
    {
      state, item, result, text := Empty, [], 0, "";
    }

    /** Posts an item, unless another waits; the asking thread then waits. */
    method AskBegins(posted: seq<Byte>) returns (waits: bool)
      modifies this
      ensures (Value(), waits) == Post(old(Value()), posted)
    {
      if |posted| > ITEM_SIZE {
        return false;
      }
      if state != Empty {
        return false;
      }
      item, state := posted, Posted;
      waits := true;
    }

    /** The wait is over, by an answer or by the time: collects the answer, or withdraws. */
    method AskEnds() returns (isAnswered: bool, gotResult: nat, gotText: string)
      modifies this
      ensures (Value(), isAnswered) == Finish(old(Value()))
      ensures isAnswered ==> gotResult == old(result) && gotText == CutText(old(text))
    {
      isAnswered, gotResult, gotText := state == Answered, 0, "";
      if isAnswered {
        gotResult, gotText := result, CutText(text);
      }
      state := Empty;
    }

    /** The owner takes the item that waits. */
    method TakeItem(size: nat) returns (waits: bool, taken: seq<Byte>)
      modifies this
      ensures (Value(), waits) == Take(old(Value()), size)
      ensures waits ==> taken == old(item)
    {
      waits, taken := state == Posted && |item| <= size, [];
      if waits {
        taken, state := item, Taken;
      }
    }

    /** The owner answers the item it took; withdrawn meanwhile, the answer is dropped. */
    method AnswerItem(given: nat, words: string)
      modifies this
      ensures Value() == Answer(old(Value()), given, words)
    {
      if state == Taken {
        result, text, state := given, CutText(words), Answered;
      }
    }
  }

  // ---------------------------------------------------------------- Every interleaving

  /** What an Ask that has ended returned. */
  datatype Outcome = Refused | Withdrawn | Got(result: nat, text: string)

  /** An item that the owner took, with the number of its Ask. */
  datatype Held = Held(ask: int, item: seq<Byte>)

  /**
   * The mailbox, the Ask that waits, what the owner has taken and not answered, and what has
   * happened: the items asked, the answers given and what came of each Ask, by the number of the
   * Ask.
   */
  datatype World = World(box: Box, waiting: int, owner: seq<Held>, asked: seq<seq<Byte>>,
                         given: map<int, (nat, string)>, outcomes: map<int, Outcome>)

  datatype Step = AskStep(item: seq<Byte>) | EndStep | TakeStep(size: nat)
                | AnswerStep(which: nat, result: nat, text: string)

  /** A wait ends when someone waits, and the owner answers what it holds. */
  predicate IsPossible(w: World, step: Step) {
    (step.EndStep? ==> w.waiting >= 0) && (step.AnswerStep? ==> step.which < |w.owner|)
  }

  /** An owner takes while it holds less than its limit. */
  predicate IsEnabled(w: World, step: Step, limit: nat) {
    IsPossible(w, step) && (step.TakeStep? ==> |w.owner| < limit)
  }

  function Next(w: World, step: Step): World
    requires IsPossible(w, step)
  {
    match step
    case AskStep(item) =>
      var (box, waits) := Post(w.box, item);
      var k := |w.asked|;
      if waits then w.(box := box, waiting := k, asked := w.asked + [item])
      else w.(asked := w.asked + [item], outcomes := w.outcomes[k := Refused])
    case EndStep =>
      var (box, isAnswered) := Finish(w.box);
      w.(box := box, waiting := -1,
         outcomes := w.outcomes[w.waiting := if isAnswered
                                             then Got(w.box.result, CutText(w.box.text))
                                             else Withdrawn])
    case TakeStep(size) =>
      var (box, waits) := Take(w.box, size);
      if waits then w.(box := box, owner := w.owner + [Held(w.waiting, w.box.item)]) else w
    case AnswerStep(which, result, text) =>
      w.(box := Answer(w.box, result, text), owner := w.owner[..which] + w.owner[which + 1..],
         given := w.given[w.owner[which].ask := (result, CutText(text))])
  }

  const START := World(Box(Empty, [], 0, ""), -1, [], [], map[], map[])

  /** What the owner holds was asked; what an Ask got is the answer given to its own item. */
  ghost predicate IsMatched(w: World) {
    && (forall h | h in w.owner :: 0 <= h.ask < |w.asked| && h.item == w.asked[h.ask])
    && (forall k | k in w.outcomes && w.outcomes[k].Got? ::
          k in w.given && w.given[k] == (w.outcomes[k].result, w.outcomes[k].text))
    && (forall k | k in w.outcomes :: k < |w.asked|)
  }

  /** With at most one item taken, it is that of the Ask that waits, or of one withdrawn. */
  ghost predicate OwnerIs(w: World, h: Held) {
    && h.ask !in w.given && (h.ask in w.outcomes ==> w.outcomes[h.ask] == Withdrawn)
    && (w.box.state == Posted || w.box.state == Answered ==> h.ask != w.waiting)
    && (w.box.state == Taken ==> h.ask == w.waiting)
  }

  /** One Ask waits exactly while the mailbox is in use, and its item is the one in it. */
  ghost predicate Inv(w: World) {
    && IsMatched(w) && |w.owner| <= 1 && (w.owner != [] ==> OwnerIs(w, w.owner[0]))
    && -1 <= w.waiting < |w.asked| && (w.waiting >= 0 <==> w.box.state != Empty)
    && (w.waiting >= 0 ==> w.box.item == w.asked[w.waiting] && w.waiting !in w.outcomes)
    && (w.box.state == Posted ==> w.waiting !in w.given)
    && (w.box.state == Taken ==> w.owner != [])
    && (w.box.state == Answered ==>
          w.waiting in w.given && w.given[w.waiting] == (w.box.result, w.box.text)
          && |w.box.text| < TEXT_SIZE)
    && (forall k | k in w.given :: k < |w.asked|)
  }

  lemma StepKeepsInv(w: World, step: Step, limit: nat)
    requires Inv(w) && IsEnabled(w, step, limit) && limit <= 1
    ensures Inv(Next(w, step))
  {
    hide CutText;
  }

  predicate IsRun(w: World, steps: seq<Step>, limit: nat)
    decreases |steps|
  {
    steps == []
    || (IsEnabled(w, steps[0], limit) && IsRun(Next(w, steps[0]), steps[1..], limit))
  }

  function AfterRun(w: World, steps: seq<Step>, limit: nat): World
    requires IsRun(w, steps, limit)
    decreases |steps|
  {
    if steps == [] then w else AfterRun(Next(w, steps[0]), steps[1..], limit)
  }

  lemma {:induction false} RunKeepsInv(w: World, steps: seq<Step>, limit: nat)
    requires Inv(w) && IsRun(w, steps, limit) && limit <= 1
    ensures Inv(AfterRun(w, steps, limit))
    decreases |steps|
  {
    hide Inv, IsPossible, Next;
    if steps != [] {
      StepKeepsInv(w, steps[0], limit);
      RunKeepsInv(Next(w, steps[0]), steps[1..], limit);
    }
  }

  /**
   * In every interleaving of askers, whose waits may end at any time, with an owner that holds
   * up to some number of items: an Ask gets the answer the owner gave to that Ask's own item,
   * whatever happens, if and only if the owner answers what it took before it takes again.
   */
  lemma AnswersMatch(limit: nat)
    ensures limit <= 1
       <==> forall steps | IsRun(START, steps, limit) :: IsMatched(AfterRun(START, steps, limit))
  {
    if limit <= 1 {
      forall steps | IsRun(START, steps, limit)
        ensures IsMatched(AfterRun(START, steps, limit))
      {
        RunKeepsInv(START, steps, limit);
      }
    } else {
      var steps := MixedUp(limit);
    }
  }

  /** An Ask that is withdrawn once its item was taken, and another that gets its answer. */
  lemma MixedUp(limit: nat) returns (steps: seq<Step>)
    requires limit >= 2
    ensures IsRun(START, steps, limit) && !IsMatched(AfterRun(START, steps, limit))
  {
    var w1 := Next(START, AskStep([]));
    var w2 := Next(w1, TakeStep(ITEM_SIZE));
    var w3 := Next(w2, EndStep);
    var w4 := Next(w3, AskStep([]));
    var w5 := Next(w4, TakeStep(ITEM_SIZE));
    var w6 := Next(w5, AnswerStep(0, 0, ""));
    var w7 := Next(w6, EndStep);
    assert w7.outcomes[1] == Got(0, "") && 1 !in w7.given;
    hide Next, IsMatched;
    steps := StepAhead(w6, EndStep, [], limit);
    steps := StepAhead(w5, AnswerStep(0, 0, ""), steps, limit);
    steps := StepAhead(w4, TakeStep(ITEM_SIZE), steps, limit);
    steps := StepAhead(w3, AskStep([]), steps, limit);
    steps := StepAhead(w2, EndStep, steps, limit);
    steps := StepAhead(w1, TakeStep(ITEM_SIZE), steps, limit);
    steps := StepAhead(START, AskStep([]), steps, limit);
  }

  lemma StepAhead(w: World, step: Step, rest: seq<Step>, limit: nat) returns (steps: seq<Step>)
    requires IsEnabled(w, step, limit) && IsRun(Next(w, step), rest, limit)
    ensures IsRun(w, steps, limit)
    ensures AfterRun(w, steps, limit) == AfterRun(Next(w, step), rest, limit)
  {
    hide Next, IsPossible;
    steps := [step] + rest;
    assert steps[1..] == rest;
  }

  /** An owner that takes again before it answers gives one Ask the answer to another's item. */
  lemma TakingTwiceMismatches(a: seq<Byte>, b: seq<Byte>, answer: nat)
    requires |a| <= ITEM_SIZE && |b| <= ITEM_SIZE
    ensures var b1 := Take(Post(START.box, a).0, ITEM_SIZE).0;     // The owner takes a.
      var b2 := Post(Finish(b1).0, b).0;                           // a is withdrawn, b posted.
      var b3 := Answer(Take(b2, ITEM_SIZE).0, answer, "");         // b is taken, a answered.
      Finish(b3).1 && b3.item == b && b3.result == answer
  {
  }

  /** An answer in time is collected: nothing but the end of the wait comes between. */
  lemma AnsweredIsCollected(w: World, step: Step, limit: nat)
    requires Inv(w) && w.box.state == Answered && IsEnabled(w, step, limit) && !step.EndStep?
    ensures Next(w, step).box == w.box && Next(w, step).waiting == w.waiting
  {
  }
}
