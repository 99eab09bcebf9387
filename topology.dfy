/** Topology bootstrap: the startup check that a batch of queue
    configurations names pairwise distinct queues, and the decision each
    service's bind task makes. */
module Topology {
  import opened Envelope

  /** The exchange part of a queue configuration; the empty name is the
      broker's default exchange. */
  datatype ExchangeConfig = ExchangeConfig(name: string)

  /** A queue configuration (the fields the bootstrap reads). */
  datatype Config = Config(queueName: string, exchange: ExchangeConfig)

  /** One diagnostic line written before the uniqueness check gives up. */
  datatype LogLine = LogLine(index: nat, queueName: string)

  /** The verdict of the uniqueness check: pass, or the fatal configuration
      error (a panic in the source) with the index at which the duplicate was
      seen and the lines logged before it. */
  datatype Uniqueness = Unique | NotUnique(at: nat, logged: seq<LogLine>)

  /** The first n configurations name pairwise distinct queues. */
  ghost predicate DistinctBefore(confs: seq<Config>, n: nat)
    requires n <= |confs|
  {
    forall j, k :: 0 <= j < k < n ==> confs[j].queueName != confs[k].queueName
  }

  ghost predicate Distinct(confs: seq<Config>)
  {
    DistinctBefore(confs, |confs|)
  }

  /** The queue names the first n configurations use. */
  ghost function NamesBefore(confs: seq<Config>, n: nat): set<string>
    requires n <= |confs|
  {
    if n == 0 then {} else NamesBefore(confs, n - 1) + {confs[n - 1].queueName}
  }

  /** AssertUniqueQueues: insert each queue name into a map and stop at the
      first index where the map's size minus one is not that index. On
      failure every configuration's index and name is logged. */
  method AssertUniqueQueues(confs: seq<Config>) returns (r: Uniqueness)
    ensures r.Unique? <==> Distinct(confs)
    ensures r.NotUnique? ==>
      && r.at < |confs|
      && DistinctBefore(confs, r.at)
      && (exists j :: 0 <= j < r.at && confs[j].queueName == confs[r.at].queueName)
    ensures r.NotUnique? ==>
      && |r.logged| == |confs|
      && forall j :: 0 <= j < |confs| ==> r.logged[j] == LogLine(j, confs[j].queueName)
  {
    var queues: map<string, bool> := map[];
    for i := 0 to |confs|
      invariant queues.Keys == NamesBefore(confs, i)
      invariant |queues| == i
    {
      var name := confs[i].queueName;
      ghost var seen := name in queues;
      queues := queues[name := false];
      assert |queues| == if seen then i else i + 1;
      if |queues| - 1 != i {
        // the witness for the `exists` in the ensures: an earlier index with this name
        var j := NameWitness(confs, i, name);
        DistinctIffAllNamesCounted(confs, i);
        var logged := LogConfigs(confs);
        return NotUnique(i, logged);
      }
    }
    // the source's size test held at every step: as many names as configurations
    DistinctIffAllNamesCounted(confs, |confs|);
    return Unique;
  }

  /** The diagnostic dump written before the check gives up: one line per
      configuration, in order, with its index and queue name. */
  method LogConfigs(confs: seq<Config>) returns (logged: seq<LogLine>)
    ensures |logged| == |confs|
    ensures forall j :: 0 <= j < |confs| ==> logged[j] == LogLine(j, confs[j].queueName)
  {
    logged := [];
    for j := 0 to |confs|
      invariant |logged| == j
      invariant forall t :: 0 <= t < j ==> logged[t] == LogLine(t, confs[t].queueName)
    {
      logged := logged + [LogLine(j, confs[j].queueName)];
    }
  }

  /** The queue-bind call a service's bind task issues; `args` is the extra
      argument table, None for a nil table. */
  datatype QueueBind = QueueBind(name: string, key: string, exchange: string, noWait: bool,
                                 args: Option<map<string, Value>>)

  /** What one service's bind task did: the bind calls it issued, the error
      it reported on the result channel, and whether it closed the channel. */
  datatype BindReport = BindReport(calls: seq<QueueBind>, err: Option<string>, closedChannel: bool)

  /** One service's bind task. `channelErr` is the error from asking the
      service for a channel (None when a channel was obtained) and
      `queueBind` the broker's answer to a bind call. The default exchange is skipped without error;
      otherwise the queue is bound under its own name as the routing key. */
  function BindQueueToExchange(channelErr: Option<string>, conf: Config, queueBind: QueueBind -> Option<string>)
    : (r: BindReport)
    ensures channelErr.Some? ==> r.calls == [] && r.err == channelErr && !r.closedChannel
    ensures channelErr.None? ==> r.closedChannel
    ensures r.calls != [] <==> channelErr.None? && conf.exchange.name != ""
    ensures channelErr.None? && conf.exchange.name == "" ==> r.err.None?
    ensures r.calls != [] ==>
      && |r.calls| == 1
      && r.calls[0].name == conf.queueName && r.calls[0].key == conf.queueName
      && r.calls[0].exchange == conf.exchange.name && !r.calls[0].noWait
      && r.calls[0].args == None
      && r.err == queueBind(r.calls[0])
  {
    if channelErr.Some? then BindReport([], channelErr, false)
    else if conf.exchange.name == "" then BindReport([], None, true)
    else
      var call := QueueBind(conf.queueName, conf.queueName, conf.exchange.name, false, None);
      BindReport([call], queueBind(call), true)
  }

  /** The size test the check relies on: the first n configurations name
      pairwise distinct queues exactly when they name n different queues. */
  lemma {:induction false} DistinctIffAllNamesCounted(confs: seq<Config>, n: nat)
    requires n <= |confs|
    ensures DistinctBefore(confs, n) <==> |NamesBefore(confs, n)| == n
  {
    if n > 0 {
      var name := confs[n - 1].queueName;
      DistinctIffAllNamesCounted(confs, n - 1);
      NamesBeforeBound(confs, n - 1);
      if name in NamesBefore(confs, n - 1) {
        var j := NameWitness(confs, n - 1, name);
        assert !DistinctBefore(confs, n);
      } else {
        forall j | 0 <= j < n - 1 ensures confs[j].queueName != name {
          NameListed(confs, n - 1, j);
        }
      }
    }
  }

  /** Every name of the prefix is in its name set. */
  lemma {:induction false} NameListed(confs: seq<Config>, n: nat, j: nat)
    requires j < n <= |confs|
    ensures confs[j].queueName in NamesBefore(confs, n)
  {
    if j < n - 1 {
      NameListed(confs, n - 1, j);
    }
  }

  /** Every member of the name set is the name of some configuration of the prefix. */
  lemma {:induction false} NameWitness(confs: seq<Config>, n: nat, x: string) returns (j: nat)
    requires n <= |confs| && x in NamesBefore(confs, n)
    ensures j < n && confs[j].queueName == x
  {
    if confs[n - 1].queueName == x {
      j := n - 1;
    } else {
      j := NameWitness(confs, n - 1, x);
    }
  }

  lemma {:induction false} NamesBeforeBound(confs: seq<Config>, n: nat)
    requires n <= |confs|
    ensures |NamesBefore(confs, n)| <= n
  {
    if n > 0 {
      NamesBeforeBound(confs, n - 1);
    }
  }
}
