/** Manager and executor together: what an approval released is listed, all of it, before the listing completes. */
module ApprovedListings {
  import opened Bytes
  import opened TransferCommands
  import opened TransferManager
  import opened ConsentSafety
  import opened Approvals
  import opened TransferFilesystem
  import opened Coupling
  import ReceiveTree
  import ReceiveSessions
  import ReceiveFilesystem
  import ReceiveRuns
  import ReceiveSources
  import opened ReceiveFetches

  /** Actions carried out one after another. */
  ghost predicate CarriedOutInOrder(actions: seq<Action>, tables: seq<Tables>, ios: seq<ExecutorIo>,
                                    outs: seq<Output>) {
    && |tables| == |actions| + 1 && |ios| == |actions| && |outs| == |actions|
    && forall j :: 0 <= j < |actions| ==>
         Executable(actions[j]) && CarriedOut(tables[j], actions[j], ios[j], tables[j + 1], outs[j])
  }

  /** The listing of `id` has not been completed. */
  predicate StillListing(tables: Tables, id: Text) {
    !ReceiveFilesystem.SessionIn(tables.receive, id).listingComplete
  }

  /** The action at this place lists the path of one request, while the listing is open. */
  ghost predicate ListsRequest(id: Text, quiet: byte, request: FileTransferCommand, tables: seq<Tables>,
                               ios: seq<ExecutorIo>, outs: seq<Output>, at: nat)
    requires at < |ios| && at < |outs| && at + 1 < |tables|
  {
    && request.id == id && StillListing(tables[at], id)
    && Lists(request, quiet, tables[at], ios[at], tables[at + 1], outs[at])
  }

  ghost predicate Lists(request: FileTransferCommand, quiet: byte, before: Tables, io: ExecutorIo, after: Tables,
                        out: Output) {
    && request.fileId.Some? && out.Answered? && after.receiveLimits == before.receiveLimits
    && ReceiveFilesystem.ListsPath(before.receiveLimits, before.receive, request, quiet, io.found, after.receive,
                                   out.answer)
  }

  lemma ExecutedIsListed(before: Tables, request: FileTransferCommand, quiet: byte, io: ExecutorIo, after: Tables,
                         out: Output)
    requires Executable(Execute(FromTerminal, quiet, request)) && request.action == File
    requires CarriedOut(before, Execute(FromTerminal, quiet, request), io, after, out)
    requires StillListing(before, request.id)
    ensures Lists(request, quiet, before, io, after, out) && StillListing(after, request.id)
  {
    hide ReceiveSessions.BoundsLeft, ReceiveTree.Fits, ReceiveTree.Refuses, ReceiveFilesystem.Transmits;
  }

  lemma WrittenIsQuiet(before: Tables, id: Text, io: ExecutorIo, after: Tables, out: Output)
    requires Executable(Write(id, None, Granted)) && CarriedOut(before, Write(id, None, Granted), io, after, out)
    ensures after == before
  {}

  /** Every request was carried out by listing its path, each before the listing was completed. */
  ghost predicate ListedThenCompleted(id: Text, quiet: byte, requests: seq<FileTransferCommand>, tables: seq<Tables>,
                                      ios: seq<ExecutorIo>, outs: seq<Output>)
  {
    var last := Said(quiet) + |requests|;
    && |tables| == last + 2 && |ios| == |outs| == last + 1
    && tables[Said(quiet)] == tables[0]
    && (forall j :: 0 <= j < |requests| ==>
          ListsRequest(id, quiet, requests[j], tables, ios, outs, Said(quiet) + j))
    && StillListing(tables[last], id) && outs[last].ListingSent?
    && ReceiveFilesystem.CompletesListing(tables[last].receive, id, ios[last].files.accepts, tables[last + 1].receive,
                                          outs[last].ok, outs[last].announced)
  }

  /** Up to `n` requests, in order. */
  lemma {:induction false} ListedUpTo(id: Text, quiet: byte, requests: seq<FileTransferCommand>, actions: seq<Action>,
                                      tables: seq<Tables>, ios: seq<ExecutorIo>, outs: seq<Output>, n: nat)
    requires Releases(actions, id, quiet, requests) && CarriedOutInOrder(actions, tables, ios, outs)
    requires forall j :: 0 <= j < |requests| ==> requests[j].action == File && requests[j].id == id
    requires StillListing(tables[0], id) && n <= |requests|
    ensures tables[Said(quiet)] == tables[0] && StillListing(tables[Said(quiet) + n], id)
    ensures forall j :: 0 <= j < n ==> ListsRequest(id, quiet, requests[j], tables, ios, outs, Said(quiet) + j)
  {
    hide StillListing, Lists, CarriedOut, Executable;
    if n == 0 {
      if quiet == 0 {
        WrittenIsQuiet(tables[0], id, ios[0], tables[1], outs[0]);
      }
    } else {
      ListedUpTo(id, quiet, requests, actions, tables, ios, outs, n - 1);
      var at := Said(quiet) + (n - 1);
      assert actions[at] == Execute(FromTerminal, quiet, requests[n - 1]);
      ExecutedIsListed(tables[at], requests[n - 1], quiet, ios[at], tables[at + 1], outs[at]);
    }
  }

  lemma CompletionIsLast(id: Text, quiet: byte, before: Tables, io: ExecutorIo, after: Tables, out: Output)
    requires Executable(CompleteReceiveListing(id, quiet))
    requires CarriedOut(before, CompleteReceiveListing(id, quiet), io, after, out)
    ensures out.ListingSent?
    ensures ReceiveFilesystem.CompletesListing(before.receive, id, io.files.accepts, after.receive, out.ok,
                                               out.announced)
  {
    hide ReceiveFilesystem.CompletesListing;
  }

  lemma RequestsAreFiles(id: Text, session: TransferSession)
    requires SessionOk(id, session)
    ensures forall j :: 0 <= j < |session.receiveRequests| ==>
              session.receiveRequests[j].action == File && session.receiveRequests[j].id == id
  {}

  lemma WaitingIsNotHeld(m: Manager, id: Text, tables: Tables)
    requires Coupled(m, tables.SessionIds()) && Unapproved(m, id)
    ensures id !in tables.receive && StillListing(tables, id)
  {
    assert id in tables.SessionIds().Of(FromTerminal) ==> ApprovedIn(m, id, FromTerminal);
  }

  /**
   * Approval and executor together: when what an approval released is carried out in order by an
   * executor that has been given everything so far, each path request of the session is listed
   * while the listing is open, and the listing is completed once, after the last of them.
   */
  lemma ApprovedPathsAreListed(r: Run, ids: seq<Ids>, k: nat, token: u64, tables: seq<Tables>, ios: seq<ExecutorIo>,
                               outs: seq<Output>)
    returns (id: Text, started: nat)
    requires IsRun(r) && k < |r.events| && r.events[k] == Approve(token) && SomeWaits(r.states[k], token)
    requires DeliversAll(r, ids) && CarriedOutInOrder(r.outs[k], tables, ios, outs)
    requires tables[0].SessionIds() == ids[k]
    ensures Waits(r.states[k], id, token) && started < k && Starts(r.events[started], id, r.states[k].sessions[id])
    ensures r.states[k].sessions[id].direction == FromTerminal ==>
              && id !in tables[0].receive
              && ListedThenCompleted(id, r.states[k].sessions[id].quiet, RequestsFor(r, id, started + 1, k), tables,
                                     ios, outs)
  {
    hide Next, ManagerOk, ApproveSlot, SessionOk, CarriedOut, Executable, Coupled, DeliveredAll;
    hide ReceiveFilesystem.CompletesListing, ListsRequest, StillListing, Starts;
    hide RequestsFor;
    id := WaiterFound(r.states[k], token, r.states[k + 1], r.outs[k]);
    started := RequestsWereGiven(r, k, id);
    var session := r.states[k].sessions[id];
    if session.direction == FromTerminal {
      RunOk(r, k);
      SessionIsOk(r.states[k], id);
      ApproveReleases(id, session);
      RequestsAreFiles(id, session);
      RunCoupled(r, ids, k);
      WaitingIsNotHeld(r.states[k], id, tables[0]);
      var requests, quiet := session.receiveRequests, session.quiet;
      ListedUpTo(id, quiet, requests, r.outs[k], tables, ios, outs, |requests|);
      var last := Said(quiet) + |requests|;
      CompletionIsLast(id, quiet, tables[last], ios[last], tables[last + 1], outs[last]);
    }
  }

  /* ---- What the approved paths were found to be is what the session has listed ---- */

  /** The requests of an approval, each with what its path was found to be. */
  function ListingsOf(quiet: byte, requests: seq<FileTransferCommand>, ios: seq<ExecutorIo>): seq<Listing>
    requires Said(quiet) + |requests| <= |ios|
  {
    seq(|requests|, j requires 0 <= j < |requests| => Listing(requests[j], quiet, ios[Said(quiet) + j].found))
  }

  /** The session before each of `n` requests, and after the last. */
  function StatesOf(id: Text, quiet: byte, tables: seq<Tables>, n: nat): seq<ReceiveSessions.ReceiveSession>
    requires Said(quiet) + n < |tables|
  {
    seq(n + 1, j requires 0 <= j <= n => ReceiveFilesystem.SessionIn(tables[Said(quiet) + j].receive, id))
  }

  lemma {:induction false} LimitsKept(id: Text, quiet: byte, requests: seq<FileTransferCommand>, tables: seq<Tables>,
                                      ios: seq<ExecutorIo>, outs: seq<Output>, n: nat)
    requires ListedThenCompleted(id, quiet, requests, tables, ios, outs) && n <= |requests|
    ensures tables[Said(quiet) + n].receiveLimits == tables[0].receiveLimits
  {
    hide ReceiveFilesystem.ListsPath, ReceiveFilesystem.CompletesListing, StillListing;
    if n > 0 {
      LimitsKept(id, quiet, requests, tables, ios, outs, n - 1);
      assert ListsRequest(id, quiet, requests[n - 1], tables, ios, outs, Said(quiet) + (n - 1));
    }
  }

  lemma ListsOneRequest(request: FileTransferCommand, quiet: byte, before: Tables, io: ExecutorIo, after: Tables,
                        out: Output)
    requires Lists(request, quiet, before, io, after, out) && StillListing(before, request.id)
    ensures ListsOne(before.receiveLimits, ReceiveFilesystem.SessionIn(before.receive, request.id),
                     Listing(request, quiet, io.found), ReceiveFilesystem.SessionIn(after.receive, request.id))
  {
    hide ReceiveFilesystem.Lists;
  }

  /**
   * The approved paths, found as they were, are listed in turn by a session that starts empty, and
   * completing the listing leaves the session with just what these listings queue.
   */
  lemma ApprovedPathsAreListings(id: Text, quiet: byte, requests: seq<FileTransferCommand>, tables: seq<Tables>,
                                 ios: seq<ExecutorIo>, outs: seq<Output>)
    requires ListedThenCompleted(id, quiet, requests, tables, ios, outs)
    requires id !in tables[0].receive
    ensures var n, l, last := |requests|, tables[0].receiveLimits, tables[|requests| + Said(quiet) + 1];
            var listings, states := ListingsOf(quiet, requests, ios), StatesOf(id, quiet, tables, n);
            && ListedInTurn(l, states, listings)
            && HasListed(l, states[n], EntriesAfter(l, listings, n))
            && (outs[n + Said(quiet)].ok ==>
                  id in last.receive && last.receive[id] == ReceiveSessions.Listed(states[n]))
  {
    hide StillListing, Lists, ListsOne, ReceiveSessions.Listed, ReceiveSessions.Announcements, HasListed;
    var listings, states := ListingsOf(quiet, requests, ios), StatesOf(id, quiet, tables, |requests|);
    NothingHeld(id, tables[0]);
    assert states[0] == ReceiveFilesystem.SessionIn(tables[Said(quiet) + 0].receive, id);
    forall j | 0 <= j < |requests|
      ensures ListsOne(tables[0].receiveLimits, states[j], listings[j], states[j + 1])
    {
      LimitsKept(id, quiet, requests, tables, ios, outs, j);
      var at := Said(quiet) + j;
      assert ListsRequest(id, quiet, requests[j], tables, ios, outs, at);
      ListsOneRequest(requests[j], quiet, tables[at], ios[at], tables[at + 1], outs[at]);
    }
    RequestedAll(id, quiet, requests, tables, ios, outs);
    ListedInTurnIs(tables[0].receiveLimits, states, listings, |requests|);
  }

  lemma NothingHeld(id: Text, tables: Tables)
    requires id !in tables.receive
    ensures ReceiveFilesystem.SessionIn(tables.receive, id) == ReceiveSessions.EMPTY_SESSION
  {}

  lemma RequestedAll(id: Text, quiet: byte, requests: seq<FileTransferCommand>, tables: seq<Tables>,
                     ios: seq<ExecutorIo>, outs: seq<Output>)
    requires ListedThenCompleted(id, quiet, requests, tables, ios, outs)
    ensures Requested(ListingsOf(quiet, requests, ios))
  {
    hide StillListing, ReceiveFilesystem.ListsPath, ReceiveFilesystem.CompletesListing;
    forall j | 0 <= j < |requests|
      ensures requests[j].fileId.Some?
    {
      assert ListsRequest(id, quiet, requests[j], tables, ios, outs, Said(quiet) + j);
    }
  }

  /* ---- From then on the same command asks for data ---- */

  /** Once the listing is complete, a file command is a request for the next entry of its name. */
  lemma ExecutedFetch(l: ReceiveSessions.ReceiveLimits, s: ReceiveSessions.ReceiveSession,
                      events: seq<ReceiveRuns.Event>, before: Tables, command: FileTransferCommand, quiet: byte,
                      io: ExecutorIo, after: Tables, out: Output)
    returns (k: nat)
    requires ReceiveSessions.ReceiveOk(l, s) && !s.listingComplete
    requires command.action == File && Executable(Execute(FromTerminal, quiet, command))
    requires CarriedOut(before, Execute(FromTerminal, quiet, command), io, after, out)
    requires command.id in before.receive
    requires before.receive[command.id] == ReceiveRuns.AfterAll(ReceiveSessions.Listed(s), events)
    requires command.fileId.value !in before.receive[command.id].transmittedIds
    ensures out.Answered?
    ensures var entries, name := ReceiveSessions.EntriesOf(s.entries), command.name.value;
            var n := Fetched(ReceiveSessions.Listed(s), events, name);
            if n >= ReceiveSources.NamedBefore(entries, |entries|, name) then
              out.answer == ReceiveFilesystem.Says(ReceiveFilesystem.NotApproved) && after == before
            else
              && k < |entries| && entries[k].path == name && ReceiveSources.NamedBefore(entries, k, name) == n
              && command.id in after.receive
              && AnswersFor(entries, k, command, io.files, out.answer, after.receive[command.id])
  {
    hide ReceiveSessions.ReceiveOk, ReceiveSessions.EntriesOf, ReceiveSources.NamedBefore, Fetched, AnswersFor;
    hide ReceiveFilesystem.ListsPath, ReceiveFilesystem.Transmits, ReceiveSessions.EnqueueAll;
    hide ReceiveFilesystem.TakesSignature;
    StaysListed(s, events);
    k := FetchFits(l, s, events, before.receive, command, io.files, after.receive, out.answer);
  }

  lemma {:induction false} StaysComplete(s: ReceiveSessions.ReceiveSession, events: seq<ReceiveRuns.Event>)
    ensures ReceiveRuns.AfterAll(s, events).listingComplete == s.listingComplete
    decreases |events|
  {
    if events != [] {
      hide ReceiveSessions.Dequeue, ReceiveSessions.SignatureFits;
      StaysComplete(ReceiveRuns.After(s, events[0]), events[1..]);
    }
  }

  lemma StaysListed(s: ReceiveSessions.ReceiveSession, events: seq<ReceiveRuns.Event>)
    ensures ReceiveRuns.AfterAll(ReceiveSessions.Listed(s), events).listingComplete
  {
    hide ReceiveRuns.AfterAll, ReceiveSessions.EnqueueAll;
    StaysComplete(ReceiveSessions.Listed(s), events);
  }
}
