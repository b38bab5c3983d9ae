// read_entity_and_text and read_entity of omp/xml.c: receive chunks from the
// manager, feed them to the XML tokenizer, and hand back the first top-level
// entity once it has closed.
//
// The TLS session is a script of receive results. The GMarkup tokenizer is
// a parameter: `tok(fed, chunk)` gives the events GMarkup delivers for
// `chunk` after it has already been fed `fed`, or None when it reports a
// parse error; `finish(fed)` says whether g_markup_parse_context_end_parse
// reports an error after everything fed so far.

module XmlRead {
  import opened Options
  import opened Xml
  import opened XmlHeap
  import opened XmlBuild

  /** What one gnutls_record_recv call returns. `Received("")` is a count of 0: end of file. */
  datatype Recv = Received(data: string) | Interrupted | Rehandshake | RecvError

  /** Success with the root entity (and the text read, if asked for), or the error code. */
  datatype ReadOutcome = Read(entity: Entity, text: Option<string>) | ReadFailed(code: int)

  /** The integer read_entity_and_text returns for an outcome. */
  function Code(o: ReadOutcome): int
  {
    if o.Read? then 0 else o.code
  }

  /** The receive results that make the read loop ask again. */
  predicate Retry(x: Recv)
  {
    x.Interrupted? || x.Rehandshake?
  }

  /** The data received in a script, in order. */
  function Payload(script: seq<Recv>): string
  {
    if script == [] then []
    else Payload(script[..|script| - 1]) + (if script[|script| - 1].Received? then script[|script| - 1].data else [])
  }

  /** What one non-empty chunk does to the read: it ends it with an outcome, or leaves a reading with no root yet. */
  datatype Step = Finished(outcome: ReadOutcome) | Continue(next: Reading)

  /**
   * One non-empty chunk `d`, after `fed`, on the reading `r`: a tokenizer or
   * handler error is a parse error; once the first entity has closed, the
   * read ends, with a parse error when ending the parse reports one.
   */
  function ChunkStep(r: Reading, fed: string, d: string,
                     tok: (string, string) -> Option<seq<Event>>, finish: string -> bool, wantText: bool): (s: Step)
    ensures s.Continue? ==> s.next.root.None?
    ensures s.Finished? && s.outcome.ReadFailed? ==> s.outcome.code == -2
    ensures s.Finished? && s.outcome.Read? ==> s.outcome.text == if wantText then Some(fed + d) else None
  {
    match tok(fed, d)
    case None => Finished(ReadFailed(-2))
    case Some(evs) =>
      match ApplyAll(r, evs)
      case None => Finished(ReadFailed(-2))
      case Some(r') =>
        if r'.root.None? then Continue(r')
        else if finish(fed + d) then Finished(ReadFailed(-2))
        else Finished(Read(r'.root.value, if wantText then Some(fed + d) else None))
  }

  /**
   * The read loop from the `i`th receive result on, with the reading `r` of
   * everything fed so far (`fed`): the outcome, or None when the script runs
   * out (the read would block), and how many receive results were consumed.
   */
  function ReadFrom(script: seq<Recv>, i: nat, r: Reading, fed: string,
                    tok: (string, string) -> Option<seq<Event>>, finish: string -> bool, wantText: bool): (res: (Option<ReadOutcome>, nat))
    requires i <= |script|
    ensures i <= res.1 <= |script|
    ensures res.0.Some? ==> i < res.1
    decreases |script| - i
  {
    if i == |script| then (None, i)
    else
      match script[i]
      case Interrupted => ReadFrom(script, i + 1, r, fed, tok, finish, wantText)
      case Rehandshake => ReadFrom(script, i + 1, r, fed, tok, finish, wantText)
      case RecvError => (Some(ReadFailed(-1)), i + 1)
      case Received(d) =>
        if d == [] then (Some(ReadFailed(-3)), i + 1)
        else
          match ChunkStep(r, fed, d, tok, finish, wantText)
          case Finished(o) => (Some(o), i + 1)
          case Continue(r') => ReadFrom(script, i + 1, r', fed + d, tok, finish, wantText)
  }

  /** The whole read, from a fresh parser. */
  function ReadSpec(script: seq<Recv>, tok: (string, string) -> Option<seq<Event>>, finish: string -> bool, wantText: bool): (res: (Option<ReadOutcome>, nat))
    ensures res.1 <= |script|
  {
    ReadFrom(script, 0, Reading([], None), "", tok, finish, wantText)
  }

  /** The start handler: a start event is always accepted. */
  method DispatchStart(ctx: Context, name: string, names: seq<string>, values: seq<string>, ghost rd: Reading, ghost rootBound: nat)
    requires ctx.Valid() && Corresponds(ctx.heap.nodes, ctx.stack, ctx.first, ctx.done, rd, rootBound)
    modifies ctx, ctx.heap
    ensures ctx.Valid() && Corresponds(ctx.heap.nodes, ctx.stack, ctx.first, ctx.done, Apply(rd, Start(name, names, values)), rootBound)
  {
    StartCorresponds(ctx.heap.nodes, ctx.stack, ctx.first, ctx.done, rd, rootBound, name, names, values);
    ctx.HandleStart(name, names, values);
  }

  /** The text handler, which reports an error for text outside every entity. */
  method DispatchText(ctx: Context, chunk: string, ghost rd: Reading, ghost rootBound: nat)
    returns (ok: bool)
    requires ctx.Valid() && Corresponds(ctx.heap.nodes, ctx.stack, ctx.first, ctx.done, rd, rootBound)
    modifies ctx, ctx.heap
    ensures ok <==> Accepts(rd, Text(chunk))
    ensures ok ==> ctx.Valid() && Corresponds(ctx.heap.nodes, ctx.stack, ctx.first, ctx.done, Apply(rd, Text(chunk)), rootBound)
  {
    if ctx.stack == [] {
      return false;
    }
    TextCorresponds(ctx.heap.nodes, ctx.stack, ctx.first, ctx.done, rd, rootBound, chunk);
    ctx.HandleText(chunk);
    ok := true;
  }

  /** The end handler, which reports an error for an end tag that does not close the innermost open entity. */
  method DispatchEnd(ctx: Context, name: string, ghost rd: Reading, ghost rootBound: nat)
    returns (ok: bool, ghost rootBound': nat)
    requires ctx.Valid() && Corresponds(ctx.heap.nodes, ctx.stack, ctx.first, ctx.done, rd, rootBound)
    modifies ctx, ctx.heap
    ensures ok <==> Accepts(rd, End(name))
    ensures ok ==> ctx.Valid() && Corresponds(ctx.heap.nodes, ctx.stack, ctx.first, ctx.done, Apply(rd, End(name)), rootBound')
  {
    rootBound' := rootBound;
    if ctx.stack == [] {
      return false, rootBound';
    }
    assert Level(ctx.heap.nodes, ctx.stack, |ctx.stack| - 1, rd.open[|ctx.stack| - 1]);
    if ctx.heap.nodes[ctx.stack[|ctx.stack| - 1]].name != name {
      return false, rootBound';
    }
    rootBound' := EndCorresponds(ctx.heap.nodes, ctx.stack, ctx.first, ctx.done, rd, rootBound, name);
    ctx.HandleEnd(name);
    ok := true;
  }

  /**
   * The GMarkup callback for one event: the handler runs when the event is
   * one the tokenizer can deliver, and `ok` is false (its parse error) when
   * it is not.
   */
  method Dispatch(ctx: Context, ev: Event, ghost rd: Reading, ghost rootBound: nat)
    returns (ok: bool, ghost rootBound': nat)
    requires ctx.Valid() && Corresponds(ctx.heap.nodes, ctx.stack, ctx.first, ctx.done, rd, rootBound)
    modifies ctx, ctx.heap
    ensures ok <==> Accepts(rd, ev)
    ensures ok ==> ctx.Valid() && Corresponds(ctx.heap.nodes, ctx.stack, ctx.first, ctx.done, Apply(rd, ev), rootBound')
  {
    rootBound' := rootBound;
    match ev {
      case Start(name, names, values) =>
        DispatchStart(ctx, name, names, values, rd, rootBound);
        ok := true;
      case Text(chunk) =>
        ok := DispatchText(ctx, chunk, rd, rootBound);
      case End(name) =>
        ok, rootBound' := DispatchEnd(ctx, name, rd, rootBound);
    }
  }

  /**
   * Feed one chunk's events to the handlers, in order, stopping at the first
   * one the tokenizer could not have delivered.
   */
  method FeedEvents(ctx: Context, evs: seq<Event>, ghost rd: Reading, ghost rootBound: nat)
    returns (ok: bool, ghost rd': Reading, ghost rootBound': nat)
    requires ctx.Valid() && Corresponds(ctx.heap.nodes, ctx.stack, ctx.first, ctx.done, rd, rootBound)
    modifies ctx, ctx.heap
    ensures ok <==> ApplyAll(rd, evs).Some?
    ensures ok ==> ApplyAll(rd, evs) == Some(rd')
    ensures ok ==> ctx.Valid() && Corresponds(ctx.heap.nodes, ctx.stack, ctx.first, ctx.done, rd', rootBound')
  {
    rd' := rd;
    rootBound' := rootBound;
    var j := 0;
    assert evs[..0] == [];
    while j < |evs|
      invariant 0 <= j <= |evs|
      invariant ApplyAll(rd, evs[..j]) == Some(rd')
      invariant ctx.Valid() && Corresponds(ctx.heap.nodes, ctx.stack, ctx.first, ctx.done, rd', rootBound')
      decreases |evs| - j
    {
      assert evs[..j + 1][..j] == evs[..j];
      var accepted;
      accepted, rootBound' := Dispatch(ctx, evs[j], rd', rootBound');
      if !accepted {
        ApplyAllStuck(rd, evs, j + 1);
        return false, rd', rootBound';
      }
      rd' := Apply(rd', evs[j]);
      j := j + 1;
    }
    assert evs[..j] == evs;
    ok := true;
  }

  /**
   * The handling of one non-empty chunk inside the read loop: tokenize it,
   * run the handlers, and end the read once the first entity has closed.
   * `text` is what the loop keeps of everything received, this chunk included.
   */
  method FeedChunk(ctx: Context, fed: string, d: string, text: Option<string>,
                   tok: (string, string) -> Option<seq<Event>>, finish: string -> bool, wantText: bool,
                   ghost rd: Reading, ghost rootBound: nat)
    returns (res: Option<ReadOutcome>, ghost rd': Reading, ghost rootBound': nat)
    requires ctx.Valid() && Corresponds(ctx.heap.nodes, ctx.stack, ctx.first, ctx.done, rd, rootBound)
    requires text == if wantText then Some(fed + d) else None
    modifies ctx, ctx.heap
    ensures res.Some? ==> ChunkStep(rd, fed, d, tok, finish, wantText) == Finished(res.value)
    ensures res.None? ==> ChunkStep(rd, fed, d, tok, finish, wantText) == Continue(rd')
    ensures res.None? ==> ctx.Valid() && Corresponds(ctx.heap.nodes, ctx.stack, ctx.first, ctx.done, rd', rootBound')
  {
    rd', rootBound' := rd, rootBound;
    var events := tok(fed, d);
    if events.None? {
      return Some(ReadFailed(-2)), rd', rootBound';
    }
    var ok;
    ok, rd', rootBound' := FeedEvents(ctx, events.value, rd, rootBound);
    if !ok {
      return Some(ReadFailed(-2)), rd', rootBound';
    }
    if !ctx.done {
      return None, rd', rootBound';
    }
    if finish(fed + d) {
      return Some(ReadFailed(-2)), rd', rootBound';
    }
    res := Some(Read(ctx.heap.Value(ctx.first.value), text));
  }

  /**
   * read_entity_and_text: receive until the first top-level entity has
   * closed, retrying interrupted reads. It gives the entity (and, when
   * `wantText`, everything received) with code 0, or code -1 on a receive
   * error, -3 at end of file and -2 on a parse error; None when the script
   * runs out before any of these.
   */
  method ReadEntityAndText(script: seq<Recv>, tok: (string, string) -> Option<seq<Event>>, finish: string -> bool, wantText: bool)
    returns (r: Option<ReadOutcome>, used: nat)
    ensures (r, used) == ReadSpec(script, tok, finish, wantText)
  {
    var ctx := new Context();
    var fed: string := "";
    var text: Option<string> := if wantText then Some("") else None;
    ghost var rd := Reading([], None);
    ghost var rootBound := 0;
    InitialCorresponds();
    var i := 0;
    while i < |script|
      invariant 0 <= i <= |script|
      invariant fresh(ctx) && fresh(ctx.heap)
      invariant ctx.Valid() && Corresponds(ctx.heap.nodes, ctx.stack, ctx.first, ctx.done, rd, rootBound)
      invariant rd.root.None?
      invariant text == if wantText then Some(fed) else None
      invariant ReadFrom(script, i, rd, fed, tok, finish, wantText) == ReadSpec(script, tok, finish, wantText)
      decreases |script| - i
    {
      while i < |script| && Retry(script[i])
        invariant 0 <= i <= |script|
        invariant ReadFrom(script, i, rd, fed, tok, finish, wantText) == ReadSpec(script, tok, finish, wantText)
      {
        i := i + 1;
      }
      if i == |script| {
        break;
      }
      if script[i].RecvError? {
        return Some(ReadFailed(-1)), i + 1;
      }
      var d := script[i].data;
      if d == [] {
        return Some(ReadFailed(-3)), i + 1;
      }
      if text.Some? {
        text := Some(text.value + d);
      }
      var res;
      res, rd, rootBound := FeedChunk(ctx, fed, d, text, tok, finish, wantText, rd, rootBound);
      fed := fed + d;
      i := i + 1;
      if res.Some? {
        return res, i;
      }
    }
    return None, |script|;
  }

  /** read_entity: the same read without keeping the text. */
  method ReadEntity(script: seq<Recv>, tok: (string, string) -> Option<seq<Event>>, finish: string -> bool)
    returns (r: Option<ReadOutcome>, used: nat)
    ensures (r, used) == ReadSpec(script, tok, finish, false)
  {
    r, used := ReadEntityAndText(script, tok, finish, false);
  }

  // ---------------------------------------------------------------------
  // What the read promises

  /** A receive result after which the loop goes on reading. */
  predicate Continues(x: Recv)
  {
    Retry(x) || (x.Received? && x.data != [])
  }

  /**
   * The outcome codes of read_entity_and_text for a read that started at the
   * `i`th receive result: every result before the last one consumed lets the
   * loop go on; -1 exactly for a receive error and -3 exactly for end of
   * file, any other failure is -2; success comes with a chunk and, when asked
   * for, the text of every chunk received; an exhausted script consumes all
   * of it.
   */
  ghost predicate Outcomes(script: seq<Recv>, i: nat, o: Option<ReadOutcome>, used: nat, wantText: bool)
    requires i <= used <= |script|
  {
    (o.None? ==> used == |script| && forall k :: i <= k < used ==> Continues(script[k]))
    && (o.Some? ==>
          i < used
          && (forall k :: i <= k < used - 1 ==> Continues(script[k]))
          && (o.value == ReadFailed(-1) <==> script[used - 1] == RecvError)
          && (o.value == ReadFailed(-3) <==> script[used - 1] == Received([]))
          && (o.value.ReadFailed? ==> o.value.code in {-1, -2, -3})
          && (o.value.Read? ==> script[used - 1].Received? && o.value.text == (if wantText then Some(Payload(script[..used])) else None)))
  }

  /** A result that lets the loop go on keeps the outcome codes of the rest of the read. */
  lemma OutcomesAfterContinue(script: seq<Recv>, i: nat, o: Option<ReadOutcome>, used: nat, wantText: bool)
    requires i + 1 <= used <= |script| && Continues(script[i]) && Outcomes(script, i + 1, o, used, wantText)
    ensures Outcomes(script, i, o, used, wantText)
  {
  }

  /** The outcome codes of a read that ends at the `i`th receive result. */
  lemma OutcomesAtLast(script: seq<Recv>, i: nat, o: ReadOutcome, wantText: bool)
    requires i < |script|
    requires || (script[i] == RecvError && o == ReadFailed(-1))
             || (script[i] == Received([]) && o == ReadFailed(-3))
             || (script[i].Received? && script[i].data != []
                 && (o.ReadFailed? ==> o.code == -2)
                 && (o.Read? ==> o.text == if wantText then Some(Payload(script[..i + 1])) else None))
    ensures Outcomes(script, i, Some(o), i + 1, wantText)
  {
  }

  lemma {:induction false} ReadFromOutcomes(script: seq<Recv>, i: nat, r: Reading, fed: string,
                                            tok: (string, string) -> Option<seq<Event>>, finish: string -> bool, wantText: bool)
    requires i <= |script| && fed == Payload(script[..i])
    ensures Outcomes(script, i, ReadFrom(script, i, r, fed, tok, finish, wantText).0, ReadFrom(script, i, r, fed, tok, finish, wantText).1, wantText)
    decreases |script| - i
  {
    if i < |script| {
      var res := ReadFrom(script, i, r, fed, tok, finish, wantText);
      if Retry(script[i]) {
        assert res == ReadFrom(script, i + 1, r, fed, tok, finish, wantText);
        assert script[..i + 1][..i] == script[..i];
        ReadFromOutcomes(script, i + 1, r, fed, tok, finish, wantText);
        OutcomesAfterContinue(script, i, res.0, res.1, wantText);
      } else if script[i].Received? && script[i].data != [] {
        var d := script[i].data;
        assert script[..i + 1][..i] == script[..i];
        assert Payload(script[..i + 1]) == fed + d;
        var step := ChunkStep(r, fed, d, tok, finish, wantText);
        if step.Continue? {
          assert res == ReadFrom(script, i + 1, step.next, fed + d, tok, finish, wantText);
          ReadFromOutcomes(script, i + 1, step.next, fed + d, tok, finish, wantText);
          OutcomesAfterContinue(script, i, res.0, res.1, wantText);
        } else {
          assert res == (Some(step.outcome), i + 1);
          OutcomesAtLast(script, i, step.outcome, wantText);
        }
      } else {
        OutcomesAtLast(script, i, res.0.value, wantText);
      }
    }
  }

  /** The outcome codes of a whole read. */
  lemma ReadOutcomes(script: seq<Recv>, tok: (string, string) -> Option<seq<Event>>, finish: string -> bool, wantText: bool)
    ensures Outcomes(script, 0, ReadSpec(script, tok, finish, wantText).0, ReadSpec(script, tok, finish, wantText).1, wantText)
  {
    assert script[..0] == [];
    ReadFromOutcomes(script, 0, Reading([], None), "", tok, finish, wantText);
  }

  /** Asking for the text changes nothing else: the same results are consumed with the same code and entity. */
  lemma {:induction false} ReadFromTextIndependent(script: seq<Recv>, i: nat, r: Reading, fed: string,
                                                   tok: (string, string) -> Option<seq<Event>>, finish: string -> bool)
    requires i <= |script|
    ensures var a := ReadFrom(script, i, r, fed, tok, finish, true);
      var b := ReadFrom(script, i, r, fed, tok, finish, false);
      a.1 == b.1 && a.0.Some? == b.0.Some?
      && (a.0.Some? ==> Code(a.0.value) == Code(b.0.value) && (a.0.value.Read? ==> b.0.value == a.0.value.(text := None)))
    decreases |script| - i
  {
    if i < |script| {
      match script[i]
      case Interrupted => ReadFromTextIndependent(script, i + 1, r, fed, tok, finish);
      case Rehandshake => ReadFromTextIndependent(script, i + 1, r, fed, tok, finish);
      case RecvError =>
      case Received(d) =>
        if d != [] && ChunkStep(r, fed, d, tok, finish, true).Continue? {
          ReadFromTextIndependent(script, i + 1, ChunkStep(r, fed, d, tok, finish, true).next, fed + d, tok, finish);
        }
    }
  }

  /** read_entity and read_entity_and_text agree on everything but the text. */
  lemma ReadEntityAgrees(script: seq<Recv>, tok: (string, string) -> Option<seq<Event>>, finish: string -> bool)
    ensures var a := ReadSpec(script, tok, finish, true);
      var b := ReadSpec(script, tok, finish, false);
      a.1 == b.1 && a.0.Some? == b.0.Some?
      && (a.0.Some? ==> Code(a.0.value) == Code(b.0.value) && (a.0.value.Read? ==> b.0.value == a.0.value.(text := None)))
  {
    ReadFromTextIndependent(script, 0, Reading([], None), "", tok, finish);
  }

  /**
   * The read consumes nothing past the result it stops at: any script that
   * starts with the same consumed results gives the same outcome.
   */
  lemma {:induction false} ReadFromPrefix(script: seq<Recv>, other: seq<Recv>, i: nat, r: Reading, fed: string,
                                          tok: (string, string) -> Option<seq<Event>>, finish: string -> bool, wantText: bool)
    requires i <= |script| && ReadFrom(script, i, r, fed, tok, finish, wantText).0.Some?
    requires ReadFrom(script, i, r, fed, tok, finish, wantText).1 <= |other|
    requires other[..ReadFrom(script, i, r, fed, tok, finish, wantText).1] == script[..ReadFrom(script, i, r, fed, tok, finish, wantText).1]
    ensures ReadFrom(other, i, r, fed, tok, finish, wantText) == ReadFrom(script, i, r, fed, tok, finish, wantText)
    decreases |script| - i
  {
    var used := ReadFrom(script, i, r, fed, tok, finish, wantText).1;
    assert other[i] == other[..used][i] == script[..used][i] == script[i];
    match script[i]
    case Interrupted => ReadFromPrefix(script, other, i + 1, r, fed, tok, finish, wantText);
    case Rehandshake => ReadFromPrefix(script, other, i + 1, r, fed, tok, finish, wantText);
    case RecvError =>
    case Received(d) =>
      if d != [] && ChunkStep(r, fed, d, tok, finish, wantText).Continue? {
        ReadFromPrefix(script, other, i + 1, ChunkStep(r, fed, d, tok, finish, wantText).next, fed + d, tok, finish, wantText);
      }
  }

  /** A whole read depends only on the receive results it consumed. */
  lemma ReadPrefix(script: seq<Recv>, other: seq<Recv>, tok: (string, string) -> Option<seq<Event>>, finish: string -> bool, wantText: bool)
    requires ReadSpec(script, tok, finish, wantText).0.Some?
    requires ReadSpec(script, tok, finish, wantText).1 <= |other|
    requires other[..ReadSpec(script, tok, finish, wantText).1] == script[..ReadSpec(script, tok, finish, wantText).1]
    ensures ReadSpec(other, tok, finish, wantText) == ReadSpec(script, tok, finish, wantText)
  {
    ReadFromPrefix(script, other, 0, Reading([], None), "", tok, finish, wantText);
  }
}
