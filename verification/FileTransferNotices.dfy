/**
 What the upper layer of the second group master is told of the responses: each one once, in order, with what it said.
 */
module FileTransferNotices {
  import opened Bits
  import opened TransferSteps
  import opened UpdateNodes
  import opened FileTransferProtocol
  import opened FileTransferTiming
  import Reports = FileTransferReports

  /** The notifications in a log, in order. */
  function Notices(log: seq<Entry>): seq<Entry> {
    if log == [] then []
    else
      var e := log[|log| - 1];
      Notices(log[..|log| - 1]) + if e.Notified? then [e] else []
  }

  /** What a list of events is to be notified as, whatever the state of the transfer. */
  function NoticesOf(events: seq<Event>): seq<Entry> {
    if events == [] then []
    else
      var e := events[|events| - 1];
      NoticesOf(events[..|events| - 1]) + if e.Tick? then [] else [Reports.NoticeOf(e)]
  }

  lemma {:induction false} NoticesJoin(log: seq<Entry>, extra: seq<Entry>)
    ensures Notices(log + extra) == Notices(log) + Notices(extra)
  {
    if extra == [] {
      assert log + extra == log;
    } else {
      var n := |extra| - 1;
      assert (log + extra)[..|log| + n] == log + extra[..n];
      NoticesJoin(log, extra[..n]);
    }
  }

  lemma {:induction false} NoNotices(extra: seq<Entry>)
    requires forall x | x in extra :: !x.Notified?
    ensures Notices(extra) == []
  {
    if extra != [] { NoNotices(extra[..|extra| - 1]); }
  }

  lemma {:induction false} ReportsSilent(objAddr: seq<nat>, nodes: seq<NodeVal>)
    ensures Notices(FileTransferProtocol.Reports(objAddr, nodes)) == []
  {
    hide Listed, Notices;
    if objAddr == [] {
      NoNotices([]);
    } else {
      var n := |objAddr| - 1;
      var front := FileTransferProtocol.Reports(objAddr[..n], nodes);
      ReportsSilent(objAddr[..n], nodes);
      NoticesJoin(front, [Reported(objAddr[n])]);
      NoNotices([Reported(objAddr[n])]);
      assert front + [] == front;
    }
  }

  lemma TickSilent(s: State, e: Event)
    requires Shape(s) && e.Tick?
    ensures Notices(Apply(s, e).log) == Notices(s.log)
  {
    hide Notices, Poll, Expired, Finish, FileTransferProtocol.Reports, KeepAt;
    if s.cur != IDLE && Expired(s, e.checked) {
      var d := PollParts(s, e.checked, e.now);
      var u := Poll(s, e.checked, e.now);
      FinishRestarts(d, e.now);
      var told := FileTransferProtocol.Reports(s.objAddr, d.nodes);
      ReportsSilent(s.objAddr, d.nodes);
      NoticesJoin(s.log, told);
      forall x: Entry | !x.Notified?
        ensures Notices(s.log + [x]) == Notices(s.log) && Notices(d.log + [x]) == Notices(d.log)
      {
        NoticesJoin(s.log, [x]);
        NoticesJoin(d.log, [x]);
        NoNotices([x]);
      }
    } else {
      Unexpired(s, e.checked, e.now);
    }
  }

  lemma ResponseTold(s: State, e: Event)
    requires Shape(s) && !e.Tick?
    ensures Notices(Apply(s, e).log) == Notices(s.log) + [Reports.NoticeOf(e)]
  {
    hide Notices, Apply, Finish, AllAt, Reports.Handled, Reports.BadReply;
    var f, n := Reports.ResponseParts(s, e);
    var m := Reports.Handled(s, e);
    HandledSilent(s, e);
    NoticesJoin(m.log, [Sent(f.last)]);
    NoNotices([Sent(f.last)]);
    NoticesJoin(f.log, [n]);
    OneNotice(n);
  }

  lemma OneNotice(n: Entry)
    requires n.Notified?
    ensures Notices([n]) == [n]
  {
    assert [n][..0] == [];
  }

  lemma HandledSilent(s: State, e: Event)
    requires Shape(s) && !e.Tick?
    ensures Notices(Reports.Handled(s, e).log) == Notices(s.log)
  {
    hide SetProcess, RemoveFirst, Listed, Notices;
    var extra := Reports.Handled(s, e).log[|s.log|..];
    NoticesJoin(s.log, extra);
    NoNotices(extra);
  }

  lemma {:induction false} RunTold(s: State, events: seq<Event>)
    requires Shape(s)
    ensures Notices(Run(s, events).log) == Notices(s.log) + NoticesOf(events)
  {
    hide Apply, Notices, Reports.NoticeOf;
    if events != [] {
      var n := |events| - 1;
      var m, e := Run(s, events[..n]), events[n];
      assert events == events[..n] + [e];
      RunTold(s, events[..n]);
      RunJoin(s, events[..n], [e]);
      RunOne(m, e);
      if e.Tick? { TickSilent(m, e); } else { ResponseTold(m, e); }
    }
  }

  /** In every run of a transfer the upper layer is told of exactly the responses, in order: a command response as phase
      0, an information response as phase 1, a data response as phase 2 with its offset, and a CRC response as 3 when it
      says 1 and as -3 otherwise. */
  lemma ResponsesTold(s: State, addrs: seq<nat>, len: nat, file: seq<byte>, now: nat, events: seq<Event>)
    requires Shape(s) && |file| < 0x1_0000_0000
    ensures Notices(Run(Start(s, addrs, len, file, now), events).log) == NoticesOf(events)
  {
    hide Run, Notices, NoticesOf;
    var s0 := Start(s, addrs, len, file, now);
    RunTold(s0, events);
    NoNotices(s0.log);
  }
}
