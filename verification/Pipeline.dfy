/**
 The input path of one connection, src/ssh/session.rs and src/ssh/render_loop.rs. Chunks from the client
 wait in a bounded queue, a task decodes them, and the keys go to the application through a lossless
 queue, the wheel events through one that drops. Client, task and render loop take turns in any order.
 */
module Pipeline {
  import opened Utf8
  import opened Fields
  import opened Subsequences
  import Input
  import InputStreams

  type Chunk = seq<Byte>
  type Key = Input.Key
  type MouseEvent = Input.MouseEvent

  const INPUT_QUEUE_CAP := 256
  const KEY_QUEUE_CAP := 1024
  const WHEEL_QUEUE_CAP := 128
  const MAX_KEYS_PER_FRAME := 128
  const MAX_WHEEL_EVENTS_PER_FRAME := 128

  predicate IsMouseWheel(kind: Input.MouseEventKind) {
    kind.ScrollUp? || kind.ScrollDown? || kind.ScrollLeft? || kind.ScrollRight?
  }

  predicate IsWheel(key: Key) { key.Mouse? && IsMouseWheel(key.event.kind) }

  /** The keys of a list that are no wheel events. */
  function KeysOf(keys: seq<Key>): seq<Key> {
    if keys == [] then [] else (if IsWheel(keys[0]) then [] else [keys[0]]) + KeysOf(keys[1..])
  }

  function WheelsOf(keys: seq<Key>): seq<MouseEvent> {
    if keys == [] then [] else (if IsWheel(keys[0]) then [keys[0].event] else []) + WheelsOf(keys[1..])
  }

  // ----- The atomic steps

  /** `inFlight` are the keys of the current chunk that are not dispatched yet. */
  datatype State = State(
    sending: bool, input: seq<Chunk>, droppedBytes: nat, refusals: nat,
    decoding: bool, decoder: Input.State, inFlight: seq<Key>,
    keys: seq<Key>, wheels: seq<MouseEvent>, droppedWheels: nat, receiving: bool)

  const OPENED := State(true, [], 0, 0, true, Input.FRESH, [], [], [], 0, true)

  predicate HasRoom(s: State) { s.decoding && |s.input| < INPUT_QUEUE_CAP }

  /** A chunk arrives. Without room at the end of the wait, or without a decoder, it is dropped whole. */
  function Offer(s: State, chunk: Chunk): State {
    if !s.sending then s
    else if HasRoom(s) then s.(input := s.input + [chunk])
    else s.(droppedBytes := s.droppedBytes + |chunk|, refusals := s.refusals + 1)
  }

  /** The task takes the next chunk, or ends when none can come any more. */
  function Receive(s: State): State {
    if !s.decoding || s.inFlight != [] then s
    else if s.input != [] then
      var pushed := Input.PushOf(s.decoder, s.input[0]);
      s.(input := s.input[1..], decoder := pushed.state, inFlight := pushed.keys)
    else if s.sending then s
    else s.(decoding := false)
  }

  /** The task hands one key on. For a key it waits for room; a wheel event it drops. */
  function Dispatch(s: State): State {
    if !s.decoding || s.inFlight == [] then s
    else
      var key, rest := s.inFlight[0], s.inFlight[1..];
      if !s.receiving then s.(decoding := false)
      else if IsWheel(key) then
        if |s.wheels| < WHEEL_QUEUE_CAP then s.(inFlight := rest, wheels := s.wheels + [key.event])
        else s.(inFlight := rest, droppedWheels := s.droppedWheels + 1)
      else if |s.keys| < KEY_QUEUE_CAP then s.(inFlight := rest, keys := s.keys + [key])
      else s
  }

  /** The application behind the queues, known by what it has been given and whether it still runs. */
  class App {
    var keys: seq<Key>
    var wheels: seq<MouseEvent>
    var running: bool
    const quits: (seq<Key>, seq<MouseEvent>) -> bool

    constructor (quits: (seq<Key>, seq<MouseEvent>) -> bool)
      ensures this.quits == quits && keys == [] && wheels == [] && running
    {
      this.quits, keys, wheels, running := quits, [], [], true;
    }

    method HandleKey(key: Key)
      modifies this
      ensures keys == old(keys) + [key] && wheels == old(wheels)
      ensures running == (old(running) && !quits(keys, wheels))
    {
      keys := keys + [key];
      running := running && !quits(keys, wheels);
    }

    method HandleMouse(mouse: MouseEvent)
      modifies this
      ensures keys == old(keys) && wheels == old(wheels) + [mouse]
      ensures running == (old(running) && !quits(keys, wheels))
    {
      wheels := wheels + [mouse];
      running := running && !quits(keys, wheels);
    }
  }

  class Connection {
    var sending: bool
    var input: seq<Chunk>
    var droppedBytes: nat
    var refusals: nat
    var decoding: bool
    const decoder: Input.InputDecoder
    var inFlight: seq<Key>
    var keys: seq<Key>
    var wheels: seq<MouseEvent>
    var droppedWheels: nat
    var receiving: bool

    constructor ()
      ensures Value() == OPENED && fresh(decoder)
    {
      sending, input, droppedBytes, refusals := true, [], 0, 0;
      decoding, inFlight := true, [];
      decoder := new Input.InputDecoder();
      keys, wheels, droppedWheels, receiving := [], [], 0, true;
    }

    function Value(): State
      reads this, decoder
    {
      State(sending, input, droppedBytes, refusals, decoding, decoder.Value(), inFlight,
            keys, wheels, droppedWheels, receiving)
    }

    method Data(chunk: Chunk)
      modifies this
      ensures Value() == Offer(old(Value()), chunk)
    {
      if sending {
        if decoding && |input| < INPUT_QUEUE_CAP {
          input := input + [chunk];
        } else {
          droppedBytes := droppedBytes + |chunk|;
          refusals := refusals + 1;
        }
      }
    }

    method ReceiveChunk()
      modifies this, decoder
      ensures Value() == Receive(old(Value()))
    {
      if decoding && inFlight == [] {
        if input != [] {
          inFlight := decoder.Push(input[0]);
          input := input[1..];
        } else if !sending {
          decoding := false;
        }
      }
    }

    method DispatchKey()
      modifies this
      ensures Value() == Dispatch(old(Value()))
    {
      if decoding && inFlight != [] {
        match inFlight[0] {
          case Mouse(mouse) =>
            if IsMouseWheel(mouse.kind) {
              if !receiving {
                decoding := false;
                return;
              }
              if |wheels| < WHEEL_QUEUE_CAP {
                wheels := wheels + [mouse];
              } else {
                droppedWheels := droppedWheels + 1;
              }
              inFlight := inFlight[1..];
              return;
            }
          case _ =>
        }
        if !receiving {
          decoding := false;
        } else if |keys| < KEY_QUEUE_CAP {
          keys := keys + [inFlight[0]];
          inFlight := inFlight[1..];
        }
      }
    }

    /** One frame of the render loop when nothing else runs. It hands over the oldest keys, at most 128,
        stopping early only where the application quits, then wheel events while it runs. When
        something is left behind for a running application, the next frame is already requested. */
    method RenderOnce(app: App) returns (taken: nat, scrolled: nat, again: bool)
      modifies this`keys, this`wheels, app
      ensures taken <= |old(keys)| && taken <= MAX_KEYS_PER_FRAME
      ensures app.keys == old(app.keys) + old(keys)[..taken] && keys == old(keys)[taken..]
      ensures scrolled <= |old(wheels)| && scrolled <= MAX_WHEEL_EVENTS_PER_FRAME
      ensures app.wheels == old(app.wheels) + old(wheels)[..scrolled] && wheels == old(wheels)[scrolled..]
      ensures taken < MAX_KEYS_PER_FRAME && keys != [] ==> taken > 0 && !app.running
      ensures scrolled < MAX_WHEEL_EVENTS_PER_FRAME && wheels != [] ==> !app.running
      ensures again <==> taken == MAX_KEYS_PER_FRAME || scrolled == MAX_WHEEL_EVENTS_PER_FRAME
      ensures app.running && (keys != [] || wheels != []) ==> again
      ensures scrolled > 0 ==> forall i | 1 <= i <= taken :: !app.quits(old(app.keys) + old(keys)[..i], old(app.wheels))
      ensures forall i | 1 <= i < taken :: !app.quits(old(app.keys) + old(keys)[..i], old(app.wheels)) || !old(app.running)
      ensures !old(app.running) ==> taken <= 1 && scrolled == 0
    {
      ghost var appKeys, appWheels, keys0, wheels0, alive := app.keys, app.wheels, keys, wheels, app.running;
      taken := 0;
      while taken < MAX_KEYS_PER_FRAME
        invariant taken <= |keys0| && taken <= MAX_KEYS_PER_FRAME && keys == keys0[taken..]
        invariant app.keys == appKeys + keys0[..taken] && app.wheels == appWheels && wheels == wheels0
        invariant taken == 0 || app.running
        invariant taken == 0 ==> app.running == alive
        invariant taken > 0 ==> alive
        invariant forall i | 1 <= i <= taken :: !app.quits(appKeys + keys0[..i], appWheels)
      {
        if keys == [] {
          break;
        }
        assert keys0[..taken + 1] == keys0[..taken] + [keys[0]];
        app.HandleKey(keys[0]);
        assert app.keys == appKeys + keys0[..taken + 1];
        keys := keys[1..];
        taken := taken + 1;
        if !app.running {
          break;
        }
      }
      scrolled := 0;
      ghost var runs := app.running;
      while app.running && scrolled < MAX_WHEEL_EVENTS_PER_FRAME
        invariant scrolled <= |wheels0| && scrolled <= MAX_WHEEL_EVENTS_PER_FRAME && wheels == wheels0[scrolled..]
        invariant app.wheels == appWheels + wheels0[..scrolled] && app.keys == appKeys + keys0[..taken]
        invariant keys == keys0[taken..]
        invariant app.running ==> runs
        invariant scrolled > 0 ==> runs
      {
        if wheels == [] {
          break;
        }
        assert wheels0[..scrolled + 1] == wheels0[..scrolled] + [wheels[0]];
        app.HandleMouse(wheels[0]);
        assert app.wheels == appWheels + wheels0[..scrolled + 1];
        wheels := wheels[1..];
        scrolled := scrolled + 1;
      }
      again := taken == MAX_KEYS_PER_FRAME || scrolled == MAX_WHEEL_EVENTS_PER_FRAME;
    }
  }

  // ----- All schedules

  /** The connection with what has gone in and come out so far. */
  datatype World = World(
    s: State, offered: nat, accepted: seq<Chunk>, received: seq<Chunk>,
    handledKeys: seq<Key>, handledWheels: seq<MouseEvent>)

  const START := World(OPENED, 0, [], [], [], [])

  datatype Step =
    | Sends(chunk: Chunk) | HangsUp          // the client
    | Receives | Dispatches                  // the decoding task
    | TakesKey | TakesWheel | StopsReceiving // the render loop

  function Next(w: World, step: Step): World {
    match step
    case Sends(chunk) =>
      w.(s := Offer(w.s, chunk),
         offered := w.offered + (if w.s.sending then |chunk| else 0),
         accepted := w.accepted + if w.s.sending && HasRoom(w.s) then [chunk] else [])
    case HangsUp => w.(s := w.s.(sending := false))
    case Receives =>
      w.(s := Receive(w.s),
         received := w.received + if w.s.decoding && w.s.inFlight == [] && w.s.input != [] then [w.s.input[0]] else [])
    case Dispatches => w.(s := Dispatch(w.s))
    case TakesKey =>
      if w.s.receiving && w.s.keys != [] then
        w.(s := w.s.(keys := w.s.keys[1..]), handledKeys := w.handledKeys + [w.s.keys[0]])
      else w
    case TakesWheel =>
      if w.s.receiving && w.s.wheels != [] then
        w.(s := w.s.(wheels := w.s.wheels[1..]), handledWheels := w.handledWheels + [w.s.wheels[0]])
      else w
    case StopsReceiving => w.(s := w.s.(receiving := false))
  }

  function Run(w: World, steps: seq<Step>): World
    decreases steps
  {
    if steps == [] then w else Run(Next(w, steps[0]), steps[1..])
  }

  /** What the chunks received so far decode to. */
  function Decoded(w: World): seq<Key> { Input.Feed(Input.FRESH, w.received).keys }

  ghost predicate QueuesFit(s: State) {
    |s.input| <= INPUT_QUEUE_CAP && |s.keys| <= KEY_QUEUE_CAP && |s.wheels| <= WHEEL_QUEUE_CAP
  }

  ghost predicate BytesAdd(w: World) {
    && w.accepted == w.received + w.s.input
    && w.offered == |Concat(w.accepted)| + w.s.droppedBytes
  }

  ghost predicate DecoderAgrees(w: World) { w.s.decoder == Input.Feed(Input.FRESH, w.received).state }

  /** No key is lost, doubled or overtaken. */
  ghost predicate KeysAdd(w: World) {
    KeysOf(Decoded(w)) == w.handledKeys + w.s.keys + KeysOf(w.s.inFlight)
  }

  /** Wheel events keep their order, and every one that is missing has been counted. */
  ghost predicate WheelsAdd(w: World) {
    && IsSubsequence(w.handledWheels + w.s.wheels + WheelsOf(w.s.inFlight), WheelsOf(Decoded(w)))
    && |WheelsOf(Decoded(w))|
       == |w.handledWheels| + |w.s.wheels| + |WheelsOf(w.s.inFlight)| + w.s.droppedWheels
  }

  ghost predicate Inv(w: World) {
    QueuesFit(w.s) && BytesAdd(w) && DecoderAgrees(w) && KeysAdd(w) && WheelsAdd(w)
  }

  lemma {:induction false} KeysOfConcat(a: seq<Key>, b: seq<Key>)
    ensures KeysOf(a + b) == KeysOf(a) + KeysOf(b)
  {
    hide IsWheel;
    if a == [] {
      assert a + b == b;
    } else {
      assert (a + b)[1..] == a[1..] + b && (a + b)[0] == a[0];
      KeysOfConcat(a[1..], b);
      ConcatAssociates(if IsWheel(a[0]) then [] else [a[0]], KeysOf(a[1..]), KeysOf(b));
    }
  }

  lemma WheelsOfCons(key: Key, rest: seq<Key>)
    ensures WheelsOf([key] + rest) == WheelsOf([key]) + WheelsOf(rest)
  {
    hide IsWheel;
    assert ([key] + rest)[1..] == rest && [key][1..] == [];
    assert WheelsOf([]) == [];
  }

  lemma {:induction false} WheelsOfConcat(a: seq<Key>, b: seq<Key>)
    ensures WheelsOf(a + b) == WheelsOf(a) + WheelsOf(b)
  {
    if a == [] {
      assert a + b == b;
    } else {
      hide *;
      WheelsOfConcat(a[1..], b);
      WheelsOfCons(a[0], a[1..]);
      WheelsOfCons(a[0], a[1..] + b);
      assert a == [a[0]] + a[1..] && a + b == [a[0]] + (a[1..] + b);
      ConcatAssociates(WheelsOf([a[0]]), WheelsOf(a[1..]), WheelsOf(b));
    }
  }

  lemma {:induction false} FeedOneMore(s: Input.State, chunks: seq<Chunk>, chunk: Chunk)
    ensures var f := Input.Feed(s, chunks);
            var p := Input.PushOf(f.state, chunk);
            Input.Feed(s, chunks + [chunk]) == Input.Pushed(p.state, f.keys + p.keys)
    decreases chunks
  {
    hide Input.PushOf;
    if chunks == [] {
      assert chunks + [chunk] == [chunk];
      var p := Input.PushOf(s, chunk);
      assert Input.Feed(p.state, []) == Input.Pushed(p.state, []);
      assert p.keys + [] == p.keys;
    } else {
      assert (chunks + [chunk])[1..] == chunks[1..] + [chunk];
      var first := Input.PushOf(s, chunks[0]);
      FeedOneMore(first.state, chunks[1..], chunk);
      var mid := Input.Feed(first.state, chunks[1..]);
      ConcatAssociates(first.keys, mid.keys, Input.PushOf(mid.state, chunk).keys);
    }
  }

  lemma SendsKeeps(w: World, chunk: Chunk)
    requires Inv(w)
    ensures Inv(Next(w, Sends(chunk)))
  {
    hide Input.Feed, Concat, IsSubsequence, KeysOf, WheelsOf;
    ConcatOneMore(w.accepted, chunk);
    assert w.accepted + [] == w.accepted;
    ConcatAssociates(w.received, w.s.input, [chunk]);
  }

  /** What a received chunk adds to the books. */
  lemma ReceiveAdds(w: World, chunk: Chunk)
    requires Inv(w) && w.s.decoding && w.s.inFlight == [] && w.s.input != [] && chunk == w.s.input[0]
    ensures var p := Input.PushOf(w.s.decoder, chunk);
            var fed := Input.Feed(Input.FRESH, w.received + [chunk]);
            && fed.state == p.state
            && KeysOf(fed.keys) == w.handledKeys + w.s.keys + KeysOf(p.keys)
            && WheelsOf(fed.keys) == WheelsOf(Decoded(w)) + WheelsOf(p.keys)
  {
    hide Input.Feed, Input.PushOf, IsSubsequence, WheelsOf;
    var p := Input.PushOf(w.s.decoder, chunk);
    FeedOneMore(Input.FRESH, w.received, chunk);
    KeysOfConcat(Decoded(w), p.keys);
    WheelsOfConcat(Decoded(w), p.keys);
    assert w.handledKeys + w.s.keys + [] == w.handledKeys + w.s.keys;
  }

  lemma ReceivesChunkKeeps(w: World)
    requires Inv(w) && w.s.decoding && w.s.inFlight == [] && w.s.input != []
    ensures Inv(Next(w, Receives))
  {
    hide Input.Feed, Input.PushOf, Concat, IsSubsequence, KeysOf;
    var chunk := w.s.input[0];
    var p := Input.PushOf(w.s.decoder, chunk);
    ReceiveAdds(w, chunk);
    assert w.received + [chunk] + w.s.input[1..] == w.received + w.s.input;
    assert WheelsOf(w.s.inFlight) == [];
    hide WheelsOf;
    assert w.handledWheels + w.s.wheels + [] == w.handledWheels + w.s.wheels;
    Append(w.handledWheels + w.s.wheels, WheelsOf(Decoded(w)), WheelsOf(p.keys));
  }

  lemma ReceivesNothingKeeps(w: World)
    requires Inv(w) && !(w.s.decoding && w.s.inFlight == [] && w.s.input != [])
    ensures Inv(Next(w, Receives))
  {
    hide Input.Feed, Input.PushOf, Concat, IsSubsequence, KeysOf, WheelsOf;
    assert w.received + [] == w.received;
  }

  lemma ReceivesKeeps(w: World)
    requires Inv(w)
    ensures Inv(Next(w, Receives))
  {
    hide *;
    if w.s.decoding && w.s.inFlight == [] && w.s.input != [] {
      ReceivesChunkKeeps(w);
    } else {
      ReceivesNothingKeeps(w);
    }
  }

  lemma DispatchKeyKeeps(w: World)
    requires Inv(w) && w.s.decoding && w.s.inFlight != [] && w.s.receiving && !IsWheel(w.s.inFlight[0])
    ensures Inv(Next(w, Dispatches))
  {
    hide Input.Feed, Concat, IsSubsequence, IsWheel;
    var key, rest := w.s.inFlight[0], w.s.inFlight[1..];
    assert KeysOf(w.s.inFlight) == [key] + KeysOf(rest);
    assert WheelsOf(w.s.inFlight) == WheelsOf(rest);
    assert w.handledKeys + (w.s.keys + [key]) + KeysOf(rest) == w.handledKeys + w.s.keys + ([key] + KeysOf(rest));
  }

  lemma DispatchWheelKeeps(w: World)
    requires Inv(w) && w.s.decoding && w.s.inFlight != [] && w.s.receiving && IsWheel(w.s.inFlight[0])
    ensures Inv(Next(w, Dispatches))
  {
    hide Input.Feed, Concat, IsSubsequence;
    var event, rest := w.s.inFlight[0].event, w.s.inFlight[1..];
    assert KeysOf(w.s.inFlight) == KeysOf(rest);
    assert WheelsOf(w.s.inFlight) == [event] + WheelsOf(rest);
    var before := w.handledWheels + w.s.wheels;
    assert before + ([event] + WheelsOf(rest)) == before + [event] + WheelsOf(rest);
    if |w.s.wheels| < WHEEL_QUEUE_CAP {
      assert w.handledWheels + (w.s.wheels + [event]) == before + [event];
    } else {
      WithoutOne(before, event, WheelsOf(rest), WheelsOf(Decoded(w)));
    }
  }

  lemma DispatchesKeeps(w: World)
    requires Inv(w)
    ensures Inv(Next(w, Dispatches))
  {
    if w.s.decoding && w.s.inFlight != [] && w.s.receiving {
      if IsWheel(w.s.inFlight[0]) {
        DispatchWheelKeeps(w);
      } else {
        DispatchKeyKeeps(w);
      }
    } else {
      hide Input.Feed, Concat, IsSubsequence, IsWheel, KeysOf, WheelsOf;
    }
  }

  lemma TakesKeyKeeps(w: World)
    requires Inv(w)
    ensures Inv(Next(w, TakesKey))
  {
    hide Input.Feed, Concat, IsSubsequence, KeysOf, WheelsOf;
    if w.s.keys != [] {
      assert w.handledKeys + [w.s.keys[0]] + w.s.keys[1..] == w.handledKeys + w.s.keys;
    }
  }

  lemma TakesWheelKeeps(w: World)
    requires Inv(w)
    ensures Inv(Next(w, TakesWheel))
  {
    hide Input.Feed, Concat, IsSubsequence, KeysOf, WheelsOf;
    if w.s.wheels != [] {
      assert w.handledWheels + [w.s.wheels[0]] + w.s.wheels[1..] == w.handledWheels + w.s.wheels;
    }
  }

  lemma ClosingKeeps(w: World)
    requires Inv(w)
    ensures Inv(Next(w, HangsUp)) && Inv(Next(w, StopsReceiving))
  {
    hide Input.Feed, Concat, IsSubsequence, KeysOf, WheelsOf;
  }

  lemma NextKeeps(w: World, step: Step)
    requires Inv(w)
    ensures Inv(Next(w, step))
  {
    hide *;
    match step
    case Sends(chunk) => SendsKeeps(w, chunk);
    case Receives => ReceivesKeeps(w);
    case Dispatches => DispatchesKeeps(w);
    case HangsUp => ClosingKeeps(w);
    case TakesKey => TakesKeyKeeps(w);
    case TakesWheel => TakesWheelKeeps(w);
    case StopsReceiving => ClosingKeeps(w);
  }

  lemma {:induction false} RunKeeps(w: World, steps: seq<Step>)
    requires Inv(w)
    ensures Inv(Run(w, steps))
    decreases steps
  {
    hide Inv, Next;
    if steps != [] {
      NextKeeps(w, steps[0]);
      RunKeeps(Next(w, steps[0]), steps[1..]);
    }
  }

  lemma StartIsFine()
    ensures Inv(START)
  {
    assert [] + [] + KeysOf([]) == [];
  }

  // ----- When something is refused, dropped or made to wait

  /** A chunk is refused exactly without room or decoder; otherwise it is queued. */
  lemma RefusedExactly(w: World, chunk: Chunk)
    requires w.s.sending
    ensures var next := Next(w, Sends(chunk));
            var full := !w.s.decoding || |w.s.input| >= 256;
            && (next.s.refusals == w.s.refusals + 1 <==> full) && (next.s.refusals == w.s.refusals <==> !full)
            && next.s.droppedBytes == w.s.droppedBytes + (if full then |chunk| else 0)
            && next.s.input == (if full then w.s.input else w.s.input + [chunk])
            && next.accepted == (if full then w.accepted else w.accepted + [chunk])
  {
    assert w.accepted + [] == w.accepted;
  }

  /** The task handles the key in front: it has one, and somebody receives. */
  predicate Handling(s: State) { s.decoding && s.inFlight != [] && s.receiving }

  /** Whatever the schedule, the task waits only with a key in front, and only while 1024 are queued. */
  lemma TaskWaitsOnlyWhenFull(steps: seq<Step>)
    requires Handling(Run(START, steps).s)
    ensures var w := Run(START, steps);
            Next(w, Dispatches).s == w.s <==> !IsWheel(w.s.inFlight[0]) && |w.s.keys| == 1024
  {
    hide Run, Input.PushOf, IsWheel, KeysAdd, WheelsAdd, BytesAdd;
    NothingIsLostUnnoticed(steps);
  }

  /** Whatever the schedule, a step drops a wheel event only while 128 of them are queued, and drops one. */
  lemma WheelsAreDroppedOnlyWhenFull(steps: seq<Step>, step: Step)
    ensures var w := Run(START, steps);
            var next := Next(w, step);
            && w.s.droppedWheels <= next.s.droppedWheels <= w.s.droppedWheels + 1
            && (next.s.droppedWheels > w.s.droppedWheels
                <==> step == Dispatches && Handling(w.s) && IsWheel(w.s.inFlight[0]) && |w.s.wheels| == 128)
  {
    hide Run, Input.PushOf, IsWheel, KeysAdd, WheelsAdd, BytesAdd;
    NothingIsLostUnnoticed(steps);
  }

  /** The task ends exactly when it has nothing left and the client has hung up, or when it has a key that
      nobody receives. */
  lemma TaskEndsExactly(w: World, step: Step)
    requires w.s.decoding
    ensures !Next(w, step).s.decoding
            <==> || (step == Receives && w.s.inFlight == [] && w.s.input == [] && !w.s.sending)
                 || (step == Dispatches && w.s.inFlight != [] && !w.s.receiving)
  {
    hide Input.PushOf, IsWheel;
  }

  /** Hanging up and stopping to receive are for good, and so is the end of the task. */
  lemma {:induction false} ClosedStaysClosed(w: World, steps: seq<Step>)
    ensures !Next(w, HangsUp).s.sending && !Next(w, StopsReceiving).s.receiving
    ensures !w.s.sending ==> !Run(w, steps).s.sending && Run(w, steps).accepted == w.accepted
    ensures !w.s.receiving ==> !Run(w, steps).s.receiving && Run(w, steps).handledKeys == w.handledKeys
                               && Run(w, steps).handledWheels == w.handledWheels
    ensures !w.s.decoding ==> !Run(w, steps).s.decoding && Run(w, steps).received == w.received
    decreases steps
  {
    if steps != [] {
      hide Next;
      ClosedNext(w, steps[0]);
      ClosedStaysClosed(Next(w, steps[0]), steps[1..]);
    } else {
      ClosedNext(w, HangsUp);
    }
  }

  lemma ClosedNext(w: World, step: Step)
    ensures !Next(w, HangsUp).s.sending && !Next(w, StopsReceiving).s.receiving
    ensures var next := Next(w, step);
            && (!w.s.sending ==> !next.s.sending && next.accepted == w.accepted)
            && (!w.s.receiving ==>
                  !next.s.receiving && next.handledKeys == w.handledKeys && next.handledWheels == w.handledWheels)
            && (!w.s.decoding ==> !next.s.decoding && next.received == w.received)
  {
    hide Input.PushOf, IsWheel;
    assert w.accepted + [] == w.accepted && w.received + [] == w.received;
  }

  /** On every schedule the keys given to the application, those queued and those in flight are exactly
      the non-wheel keys decoded, in order; wheel events are never reordered and every missing one is
      counted; every byte offered was accepted or counted as dropped; and the queues keep their bounds. */
  lemma NothingIsLostUnnoticed(steps: seq<Step>)
    ensures var w := Run(START, steps);
            && QueuesFit(w.s) && BytesAdd(w) && KeysAdd(w) && WheelsAdd(w)
  {
    StartIsFine();
    RunKeeps(START, steps);
  }

  /** Nothing is left to do. */
  predicate Settled(s: State) { s.input == [] && s.inFlight == [] && s.keys == [] && s.wheels == [] }

  /** One step towards that. */
  function NextStep(s: State): Step
    requires !Settled(s)
  {
    if s.keys != [] then TakesKey
    else if s.wheels != [] then TakesWheel
    else if s.inFlight != [] then Dispatches
    else Receives
  }

  function Work(s: State): nat { 2 * |s.inFlight| + |s.keys| + |s.wheels| }

  lemma StepsTowards(w: World)
    requires w.s.decoding && w.s.receiving && !Settled(w.s)
    ensures var next := Next(w, NextStep(w.s));
            && next.s.decoding && next.s.receiving && next.accepted == w.accepted
            && next.s.droppedBytes == w.s.droppedBytes && next.s.droppedWheels == w.s.droppedWheels
            && (|next.s.input| < |w.s.input| || (|next.s.input| == |w.s.input| && Work(next.s) < Work(w.s)))
  {
    hide Input.PushOf, IsWheel;
  }

  lemma SettledWheels(w: World)
    requires Inv(w) && Settled(w.s)
    ensures w.s.droppedWheels == 0 ==> w.handledWheels == WheelsOf(Input.Feed(Input.FRESH, w.accepted).keys)
  {
    hide Input.Feed, KeysOf, IsSubsequence;
    assert WheelsOf([]) == [];
    hide WheelsOf;
    assert w.accepted == w.received + [] == w.received;
    assert w.handledWheels + [] + [] == w.handledWheels;
    if w.s.droppedWheels == 0 {
      NothingMissing(w.handledWheels, WheelsOf(Decoded(w)));
    }
  }

  /** The queues never block each other: as long as the render loop takes what it is given, everything
      accepted gets through, no wheel event is dropped any more, and the application ends up with all the
      keys and, if none was dropped before, with all the wheel events. */
  lemma {:induction false} EverythingGetsThrough(w: World) returns (steps: seq<Step>)
    requires Inv(w) && w.s.decoding && w.s.receiving
    ensures var end := Run(w, steps);
            && Settled(end.s) && end.accepted == w.accepted && end.s.droppedBytes == w.s.droppedBytes
            && end.handledKeys == KeysOf(Input.Feed(Input.FRESH, w.accepted).keys)
            && end.s.droppedWheels == w.s.droppedWheels
            && (w.s.droppedWheels == 0 ==> end.handledWheels == WheelsOf(Input.Feed(Input.FRESH, w.accepted).keys))
    decreases |w.s.input|, Work(w.s)
  {
    if Settled(w.s) {
      steps := [];
      SettledWheels(w);
      assert KeysOf([]) == [];
      assert w.accepted == w.received + [] == w.received;
      assert w.handledKeys + [] + [] == w.handledKeys;
    } else {
      hide Inv, Next, Settled, NextStep, Work, Input.Feed, KeysOf, WheelsOf;
      var step := NextStep(w.s);
      NextKeeps(w, step);
      StepsTowards(w);
      var rest := EverythingGetsThrough(Next(w, step));
      steps := [step] + rest;
      assert steps[0] == step && steps[1..] == rest;
    }
  }

  lemma {:induction false} CharKeysAreKeys(cs: seq<Scalar>)
    ensures KeysOf(Input.CharKeys(cs)) == Input.CharKeys(cs)
  {
    if cs != [] {
      CharKeysAreKeys(cs[1..]);
      assert Input.CharKeys(cs)[1..] == Input.CharKeys(cs[1..]);
    }
  }

  /** Typed text arrives whole, in order and cut nowhere, however the network chunks it and whatever
      the schedule: once everything is settled and nothing was refused, the application holds exactly
      its characters. */
  lemma TextArrives(steps: seq<Step>, cs: seq<Scalar>)
    requires Input.AllPlain(cs)
    requires var w := Run(START, steps); Settled(w.s) && Concat(w.accepted) == Encode(cs)
    ensures Run(START, steps).handledKeys == Input.CharKeys(cs)
  {
    var w := Run(START, steps);
    NothingIsLostUnnoticed(steps);
    assert KeysOf([]) == [];
    assert w.accepted == w.received + [] == w.received;
    assert w.handledKeys + [] + [] == w.handledKeys;
    InputStreams.TextDecodesToItsCharacters(w.accepted, cs);
    CharKeysAreKeys(cs);
  }
}
