/**
 * main.py: the orchestration loop. The submissions are fetched once; each
 * request is classified and yields one fixed block of collaborator calls.
 *
 * The collaborators (e-mail notifier, chat inviter, mailing-list agent,
 * spreadsheet updater) only log, so each call is an `Event` appended to a
 * trace, carrying the request and the `slack_invited` flag it is given.
 */
module Orchestrator {
  import opened Wrappers
  import opened RequestHandler
  import opened DomainChecker

  /** One collaborator call. */
  datatype Event =
    | RequestInstitutionalEmail(req: Request)        // email_notifier.request_institutional_email
    | UpdateTracker(req: Request, slackInvited: bool) // spreadsheet_updater.update_tracker
    | SendInvite(req: Request)                       // slack_inviter.send_invite
    | AddToLists(req: Request)                       // mailman_agent.add_to_lists
    | UpdateAll(req: Request, slackInvited: bool)     // spreadsheet_updater.update_all

  /** The block of calls one request yields, given the whitelist in force. */
  function Actions(req: Request, whitelist: set<string>): seq<Event>
  {
    if !IsValidEmail(req.email) then
      [RequestInstitutionalEmail(req), UpdateTracker(req, false)]
    else
      (if IsWhitelisted(req.email, whitelist) then [SendInvite(req)] else []) +
      [AddToLists(req), UpdateAll(req, true)]
  }

  /** The calls the loop makes for the requests, in order. */
  function Trace(reqs: seq<Request>, whitelist: set<string>): seq<Event>
    decreases |reqs|
  {
    if reqs == [] then []
    else Trace(reqs[..|reqs| - 1], whitelist) + Actions(reqs[|reqs| - 1], whitelist)
  }

  /** Each block holds exactly one of these two events; it names the request the block is for. */
  predicate Closes(e: Event)
  {
    e.RequestInstitutionalEmail? || e.AddToLists?
  }

  /** The requests a trace handled, read back from the trace alone. */
  function Handled(trace: seq<Event>): seq<Request>
    decreases |trace|
  {
    if trace == [] then []
    else
      var last := trace[|trace| - 1];
      Handled(trace[..|trace| - 1]) + (if Closes(last) then [last.req] else [])
  }

  lemma {:induction false} HandledConcat(a: seq<Event>, b: seq<Event>)
    ensures Handled(a + b) == Handled(a) + Handled(b)
    decreases |b|
  {
    if b == [] {
      assert a + b == a;
    } else {
      assert (a + b)[..|a + b| - 1] == a + b[..|b| - 1];
      HandledConcat(a, b[..|b| - 1]);
    }
  }

  lemma HandledActions(req: Request, whitelist: set<string>)
    ensures Handled(Actions(req, whitelist)) == [req]
  {
    var block := Actions(req, whitelist);
    if !IsValidEmail(req.email) {
      assert block[..1] == [RequestInstitutionalEmail(req)];
      assert block[..1][..0] == [];
      assert Handled(block[..1]) == [req];
    } else if IsWhitelisted(req.email, whitelist) {
      assert block[..2] == [SendInvite(req), AddToLists(req)];
      assert block[..2][..1] == [SendInvite(req)];
      assert block[..2][..1][..0] == [];
      assert Handled(block[..2][..1]) == [];
      assert Handled(block[..2]) == [req];
    } else {
      assert block[..1] == [AddToLists(req)];
      assert block[..1][..0] == [];
      assert Handled(block[..1]) == [req];
    }
  }

  /** A trace that handled `init`, followed by a block for `last`, handled `init` and then `last`. */
  lemma HandledAppend(before: seq<Event>, block: seq<Event>, init: seq<Request>, last: Request)
    requires Handled(before) == init && Handled(block) == [last]
    ensures Handled(before + block) == init + [last]
  {
    HandledConcat(before, block);
  }

  /**
   * Every request yields exactly one block, in order; repeated requests are
   * handled again, since nothing is deduplicated.
   */
  lemma {:induction false} EachRequestOnce(reqs: seq<Request>, whitelist: set<string>)
    ensures Handled(Trace(reqs, whitelist)) == reqs
    decreases |reqs|
  {
    if reqs != [] {
      var init, last := reqs[..|reqs| - 1], reqs[|reqs| - 1];
      EachRequestOnce(init, whitelist);
      HandledActions(last, whitelist);
      HandledAppend(Trace(init, whitelist), Actions(last, whitelist), init, last);
      assert init + [last] == reqs;
    }
  }

  /** The trace of a run is the traces of its parts, one after the other. */
  lemma {:induction false} TraceConcat(a: seq<Request>, b: seq<Request>, whitelist: set<string>)
    ensures Trace(a + b, whitelist) == Trace(a, whitelist) + Trace(b, whitelist)
    decreases |b|
  {
    if b == [] {
      assert a + b == a;
    } else {
      assert (a + b)[..|a + b| - 1] == a + b[..|b| - 1];
      TraceConcat(a, b[..|b| - 1], whitelist);
    }
  }

  /** The same request twice is handled twice: the loop does not deduplicate. */
  lemma RepeatsHandledAgain(req: Request, whitelist: set<string>)
    ensures Trace([req] + [req], whitelist) == Actions(req, whitelist) + Actions(req, whitelist)
    ensures Handled(Trace([req] + [req], whitelist)) == [req] + [req]
  {
    var one: seq<Request> := [req];
    assert one[..0] == [];
    assert Trace(one, whitelist) == Actions(req, whitelist);
    TraceConcat(one, one, whitelist);
    EachRequestOnce(one + one, whitelist);
  }

  /** Which calls the block of request `r` holds for `req`, event by event. */
  lemma ActionsEvents(r: Request, whitelist: set<string>, req: Request, flag: bool)
    ensures RequestInstitutionalEmail(req) in Actions(r, whitelist) <==> r == req && !IsValidEmail(req.email)
    ensures UpdateTracker(req, flag) in Actions(r, whitelist) <==> r == req && !IsValidEmail(req.email) && !flag
    ensures SendInvite(req) in Actions(r, whitelist) <==>
      r == req && IsValidEmail(req.email) && IsWhitelisted(req.email, whitelist)
    ensures AddToLists(req) in Actions(r, whitelist) <==> r == req && IsValidEmail(req.email)
    ensures UpdateAll(req, flag) in Actions(r, whitelist) <==> r == req && IsValidEmail(req.email) && flag
  {
  }

  /** An event that only the block of `req` can hold, and holds when `cond`, is in the trace exactly when `req` was fetched and `cond`. */
  lemma {:induction false} InTraceIff(reqs: seq<Request>, whitelist: set<string>, ev: Event, req: Request, cond: bool)
    requires forall r :: ev in Actions(r, whitelist) <==> r == req && cond
    ensures ev in Trace(reqs, whitelist) <==> req in reqs && cond
    decreases |reqs|
  {
    if reqs != [] {
      var init, last := reqs[..|reqs| - 1], reqs[|reqs| - 1];
      InTraceIff(init, whitelist, ev, req, cond);
      assert reqs == init + [last];
      assert req in reqs <==> req in init || req == last;
    }
  }

  /**
   * Which calls a request gets: an invalid address only the re-submission
   * request and a tracker entry with `slack_invited=False`; a valid one the
   * invite exactly when it is whitelisted, and always the list subscription
   * and a master entry with `slack_invited=True`.
   */
  lemma EventsOf(reqs: seq<Request>, whitelist: set<string>, req: Request, flag: bool)
    ensures RequestInstitutionalEmail(req) in Trace(reqs, whitelist) <==>
      req in reqs && !IsValidEmail(req.email)
    ensures UpdateTracker(req, flag) in Trace(reqs, whitelist) <==>
      req in reqs && !IsValidEmail(req.email) && !flag
    ensures SendInvite(req) in Trace(reqs, whitelist) <==>
      req in reqs && IsValidEmail(req.email) && IsWhitelisted(req.email, whitelist)
    ensures AddToLists(req) in Trace(reqs, whitelist) <==>
      req in reqs && IsValidEmail(req.email)
    ensures UpdateAll(req, flag) in Trace(reqs, whitelist) <==>
      req in reqs && IsValidEmail(req.email) && flag
  {
    forall r {
      ActionsEvents(r, whitelist, req, flag);
    }
    var valid := IsValidEmail(req.email);
    InTraceIff(reqs, whitelist, RequestInstitutionalEmail(req), req, !valid);
    InTraceIff(reqs, whitelist, UpdateTracker(req, flag), req, !valid && !flag);
    InTraceIff(reqs, whitelist, SendInvite(req), req, valid && IsWhitelisted(req.email, whitelist));
    InTraceIff(reqs, whitelist, AddToLists(req), req, valid);
    InTraceIff(reqs, whitelist, UpdateAll(req, flag), req, valid && flag);
  }

  /** An invalid address never gets the invite, the lists or the master entry. */
  lemma InvalidGetsNoMembership(reqs: seq<Request>, whitelist: set<string>, req: Request)
    requires req in reqs && !IsValidEmail(req.email)
    ensures SendInvite(req) !in Trace(reqs, whitelist)
    ensures AddToLists(req) !in Trace(reqs, whitelist)
    ensures forall e :: e in Trace(reqs, whitelist) && e.UpdateAll? ==> e.req != req
  {
    EventsOf(reqs, whitelist, req, true);
    forall e | e in Trace(reqs, whitelist) && e.UpdateAll?
      ensures e.req != req
    {
      EventsOf(reqs, whitelist, e.req, e.slackInvited);
    }
  }

  /** The flags are constants: the tracker always gets False, the master sheet always True. */
  lemma {:induction false} FlagsAreFixed(reqs: seq<Request>, whitelist: set<string>)
    ensures forall e :: e in Trace(reqs, whitelist) && e.UpdateTracker? ==> !e.slackInvited
    ensures forall e :: e in Trace(reqs, whitelist) && e.UpdateAll? ==> e.slackInvited
  {
    forall e | e in Trace(reqs, whitelist) && (e.UpdateTracker? || e.UpdateAll?)
      ensures e.UpdateTracker? ==> !e.slackInvited
      ensures e.UpdateAll? ==> e.slackInvited
    {
      EventsOf(reqs, whitelist, e.req, e.slackInvited);
    }
  }

  /** One more request extends the trace by its block. */
  lemma TraceStep(reqs: seq<Request>, i: nat, whitelist: set<string>)
    requires i < |reqs|
    ensures Trace(reqs[..i + 1], whitelist) == Trace(reqs[..i], whitelist) + Actions(reqs[i], whitelist)
  {
    assert reqs[..i + 1][..i] == reqs[..i];
  }

  /** Some fetched request has a valid address, so the whitelist is consulted at least once. */
  predicate AnyValid(reqs: seq<Request>)
  {
    exists i :: 0 <= i < |reqs| && IsValidEmail(reqs[i].email)
  }

  lemma AnyValidStep(reqs: seq<Request>, i: nat)
    requires i < |reqs|
    ensures AnyValid(reqs[..i + 1]) <==> AnyValid(reqs[..i]) || IsValidEmail(reqs[i].email)
  {
    var next := reqs[..i + 1];
    assert next[i] == reqs[i];
    assert forall k :: 0 <= k < i ==> next[k] == reqs[..i][k];
  }

  /**
   * The loop at main.py lines 61-73. The whitelist is built on the first valid
   * address and reused for the rest of the run.
   */
  method Dispatch(reqs: seq<Request>, cache: WhitelistCache, files: DataFiles) returns (trace: seq<Event>)
    modifies cache
    ensures trace == Trace(reqs, Resolve(old(cache.cached), files))
    ensures cache.cached == if AnyValid(reqs) then Some(Resolve(old(cache.cached), files)) else old(cache.cached)
  {
    ghost var whitelist := Resolve(cache.cached, files);
    trace := [];
    for i := 0 to |reqs|
      invariant trace == Trace(reqs[..i], whitelist)
      invariant cache.cached == if AnyValid(reqs[..i]) then Some(whitelist) else old(cache.cached)
      invariant Resolve(cache.cached, files) == whitelist
    {
      var req := reqs[i];
      TraceStep(reqs, i, whitelist);
      AnyValidStep(reqs, i);
      if !IsValidEmail(req.email) {
        trace := trace + [RequestInstitutionalEmail(req)];
        trace := trace + [UpdateTracker(req, false)];
        continue;
      }
      ghost var before := trace;
      var listed := cache.Check(req.email, files);
      if listed {
        trace := trace + [SendInvite(req)];
      }
      trace := trace + [AddToLists(req)];
      trace := trace + [UpdateAll(req, true)];
      assert trace == before + Actions(req, whitelist);
    }
    assert reqs[..|reqs|] == reqs;
  }

  /**
   * `main` after the argument parsing: fetch the new requests once, then
   * dispatch them. An error while fetching ends the run before any call.
   */
  method Run(ingestor: SubmissionIngestor, cache: WhitelistCache, rows: seq<Row>,
             parseInt: string -> Option<int>, files: DataFiles)
    returns (outcome: Result<seq<Event>, IngestError>)
    modifies ingestor, cache
    ensures var fetched := Ingest(rows, LoadLastId(old(ingestor.state)), parseInt);
      if fetched.Err? then
        outcome == Err(fetched.error) && ingestor.state == old(ingestor.state) && cache.cached == old(cache.cached)
      else
        outcome == Ok(Trace(fetched.value, Resolve(old(cache.cached), files))) &&
        ingestor.state == Some(SavedState(HighWater(LoadLastId(old(ingestor.state)), fetched.value))) &&
        cache.cached == if AnyValid(fetched.value) then Some(Resolve(old(cache.cached), files)) else old(cache.cached)
  {
    var fetched := ingestor.GetNewRequests(rows, parseInt);
    if fetched.Err? {
      return Err(fetched.error);
    }
    var trace := Dispatch(fetched.value, cache, files);
    outcome := Ok(trace);
  }
}
