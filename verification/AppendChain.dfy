/** Appends one after another to a file nothing else writes, each given the result of the one before
    it or not. */
module AppendChain {
  import opened Bytes
  import opened Records
  import opened SeekableFile
  import opened AppendPlan
  import opened Append
  import Window

  /** One append, and whether it is given what the last one returned. */
  datatype Link = Link(ask: Ask, data: Bytes, reuse: bool)

  datatype State = State(parts: seq<Bytes>, prior: Option<Prior>)

  ghost predicate Uses(find: Finder, link: Link) {
    link.ask.find == find
  }

  function Given(s: State, link: Link): Option<Prior> {
    if link.reuse then s.prior else None
  }

  /** What `AppendRecords` leaves: the file, and what the caller then has in hand. */
  function After(codec: Codec, s: State, link: Link): State {
    if AskedFor(link.ask).Some? || s.parts == [] then s
    else
      match Decide(codec, link.ask, s.parts, link.data, Given(s, link))
      case Err(_) => s
      case Ok(plan) =>
        if plan.n == 0 || (plan.Rewrite? && plan.kept > |s.parts|) then s
        else State(NewParts(codec, link.ask.find, s.parts, link.data, plan),
                   Some(ResultOf(codec, link.ask, s.parts, link.data, Given(s, link), plan)))
  }

  function AfterAll(codec: Codec, s: State, links: seq<Link>): State
    decreases |links|
  {
    if links == [] then s else AfterAll(codec, After(codec, s, links[0]), links[1..])
  }

  /** A run of appends, each given what the one before returned or not: what the chain says it
      leaves. */
  method AppendAll(codec: Codec, file: File, prior: Option<Prior>, links: seq<Link>) returns (later: Option<Prior>)
    requires Inverts(codec) && file.Valid(codec) && (prior.Some? ==> prior.value.recordsPerFrame > 0)
    modifies file
    ensures file.Valid(codec)
    ensures State(file.parts, later) == AfterAll(codec, State(old(file.parts), prior), links)
    decreases |links|
  {
    if links == [] { return prior; }
    var next := AppendLink(codec, file, prior, links[0]);
    later := AppendAll(codec, file, next, links[1..]);
  }

  method AppendLink(codec: Codec, file: File, prior: Option<Prior>, link: Link) returns (next: Option<Prior>)
    requires Inverts(codec) && file.Valid(codec) && (prior.Some? ==> prior.value.recordsPerFrame > 0)
    modifies file
    ensures file.Valid(codec) && (next.Some? ==> next.value.recordsPerFrame > 0)
    ensures State(file.parts, next) == After(codec, State(old(file.parts), prior), link)
  {
    var data := new Window.Source(link.data);
    data.Seek(0, |link.data|);
    assert data.region == link.data;
    var r := AppendRecords(codec, file, data, link.ask, if link.reuse then prior else None);
    next := if r.Ok? then Some(r.value) else prior;
  }

  /** What is in hand describes the file. */
  ghost predicate Sound(codec: Codec, find: Finder, s: State) {
    s.prior.Some? ==> Truthful(codec, find, s.parts, s.prior.value)
  }

  lemma StepIsSound(codec: Codec, find: Finder, s: State, link: Link)
    requires Inverts(codec) && Uses(find, link) && Sound(codec, find, s)
    ensures Sound(codec, find, After(codec, s, link))
  {
    if AskedFor(link.ask).None? && s.parts != [] {
      var decided := Decide(codec, link.ask, s.parts, link.data, Given(s, link));
      if decided.Ok? && decided.value.n > 0 {
        ResultIsTruthful(codec, link.ask, s.parts, link.data, Given(s, link), decided.value);
      }
    }
  }

  /** Along any chain, what the last append returned describes the file. */
  lemma {:induction false} ChainIsSound(codec: Codec, find: Finder, s: State, links: seq<Link>)
    requires Inverts(codec) && Sound(codec, find, s)
    requires forall i :: 0 <= i < |links| ==> Uses(find, links[i])
    ensures Sound(codec, find, AfterAll(codec, s, links))
    decreases |links|
  {
    if links != [] {
      StepIsSound(codec, find, s, links[0]);
      ChainIsSound(codec, find, After(codec, s, links[0]), links[1..]);
    }
  }

  /** An append that would go ahead without what the last one returned. */
  ghost predicate GoesAlone(codec: Codec, parts: seq<Bytes>, link: Link) {
    && AskedFor(link.ask).None? && parts != []
    && Decide(codec, link.ask, parts, link.data, None).Ok?
  }

  ghost predicate AllGoAlone(codec: Codec, s: State, links: seq<Link>)
    decreases |links|
  {
    links == [] || (GoesAlone(codec, s.parts, links[0]) && AllGoAlone(codec, After(codec, s, links[0]), links[1..]))
  }

  lemma StepIsSame(codec: Codec, find: Finder, s: State, t: State, link: Link, alone: Link)
    requires Inverts(codec) && Uses(find, link) && Sound(codec, find, s) && Sound(codec, find, t)
    requires s.parts == t.parts && GoesAlone(codec, s.parts, link) && alone == link.(reuse := false)
    ensures After(codec, s, link).parts == After(codec, t, alone).parts
  {
    if link.reuse && s.prior.Some? {
      PriorChangesNothing(codec, link.ask, s.parts, link.data, s.prior.value);
    }
  }

  function Alone(links: seq<Link>): (alone: seq<Link>)
    ensures |alone| == |links|
  {
    if links == [] then [] else [links[0].(reuse := false)] + Alone(links[1..])
  }

  /** A chain that hands each result on leaves the file a chain that hands none on leaves, wherever
      that one goes through. */
  lemma {:induction false} ReuseChangesNothing(codec: Codec, find: Finder, s: State, t: State, links: seq<Link>)
    requires Inverts(codec) && Sound(codec, find, s) && Sound(codec, find, t) && s.parts == t.parts
    requires forall i :: 0 <= i < |links| ==> Uses(find, links[i])
    requires AllGoAlone(codec, s, links)
    ensures AfterAll(codec, s, links).parts == AfterAll(codec, t, Alone(links)).parts
    decreases |links|
  {
    if links != [] {
      var alone := links[0].(reuse := false);
      StepIsSame(codec, find, s, t, links[0], alone);
      StepIsSound(codec, find, s, links[0]);
      StepIsSound(codec, find, t, alone);
      assert Alone(links)[0] == alone && Alone(links)[1..] == Alone(links[1..]);
      ReuseChangesNothing(codec, find, After(codec, s, links[0]), After(codec, t, alone), links[1..]);
    }
  }

  /** Two appends of the same data to files alike, however the data arrives, leave files alike and
      return the same. */
  method AppendTwice(codec: Codec, a: File, b: File, first: Window.Source, second: Window.Source, ask: Ask,
                     prior: Option<Prior>)
    returns (r: Result<Prior, Refusal>, q: Result<Prior, Refusal>)
    requires Inverts(codec) && a.Valid(codec) && b.Valid(codec) && a != b && a.parts == b.parts
    requires first.Valid() && first.at == first.start && second.Valid() && second.at == second.start
    requires first != second && first.region == second.region
    requires prior.Some? ==> prior.value.recordsPerFrame > 0
    modifies a, b, first`at, first`left, second`at, second`left
    ensures a.Valid(codec) && b.Valid(codec) && a.parts == b.parts && a.table == b.table && a.body == b.body && r == q
  {
    r := AppendRecords(codec, a, first, ask, prior);
    q := AppendRecords(codec, b, second, ask, prior);
  }
}
