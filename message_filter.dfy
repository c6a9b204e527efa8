/** The message loop: each decoded message's sender is looked up, the
    `--username` filter decides whether it is shown, and a shown message is
    output with its text dereferenced. Any KeyError aborts the run; what was
    output before it stays output. */
module MessageFilter {
  import opened Wrappers
  import opened Dereference

  /** One decoded message; a key the JSON object lacks is `None`. */
  datatype Message = Message(user: Option<string>, ts: Option<string>, text: Option<string>)

  /** What is output for a shown message: its raw timestamp, the sender's
      name and the dereferenced text. */
  datatype Entry = Entry(when: string, sender: string, text: string)

  /** The entries output, and the error that stopped the run, if any. */
  datatype Outcome = Outcome(printed: seq<Entry>, failure: Option<Error>)

  /** The `--username` filter: an empty list lets everything through;
      otherwise the sender's id or name must be listed. */
  predicate Passes(wanted: seq<string>, sender: string, name: string): (ok: bool)
    ensures wanted == [] ==> ok
  {
    wanted == [] || sender in wanted || name in wanted
  }

  /** The message names a known sender that passes the filter. */
  predicate IsSelected(users: map<string, string>, wanted: seq<string>, m: Message) {
    m.user.Some? && m.user.value in users && Passes(wanted, m.user.value, users[m.user.value])
  }

  /** The message has every key the loop reads, and its sender is known. */
  predicate Complete(users: map<string, string>, m: Message) {
    m.user.Some? && m.user.value in users && m.ts.Some? && m.text.Some?
  }

  /** The entry output for a complete message. */
  function Render(users: map<string, string>, keys: seq<string>, m: Message): Entry
    requires InTable(keys, users) && Complete(users, m)
  {
    Entry(m.ts.value, users[m.user.value], Dereferenced(users, keys, m.text.value))
  }

  /** One pass of the loop body: `user` is read, then the table is indexed,
      then the filter decides; a shown message then reads `ts` and `text`. */
  function Handle(users: map<string, string>, keys: seq<string>, wanted: seq<string>, m: Message)
    : (r: Result<Option<Entry>, Error>)
    requires InTable(keys, users)
    ensures r.Failure? <==>
      !(m.user.Some? && m.user.value in users) || (IsSelected(users, wanted, m) && !Complete(users, m))
    ensures r.Success? && r.value.Some? <==> IsSelected(users, wanted, m) && Complete(users, m)
    ensures r.Success? && r.value.Some? ==> r.value.value == Render(users, keys, m)
  {
    match m.user
    case None => Failure(MissingField("user"))
    case Some(sender) =>
      if sender !in users then Failure(UnknownUser(sender))
      else if !Passes(wanted, sender, users[sender]) then Success(None)
      else if m.ts.None? then Failure(MissingField("ts"))
      else if m.text.None? then Failure(MissingField("text"))
      else Success(Some(Render(users, keys, m)))
  }

  /** The outcome of running the loop over `log`. */
  function Filter(users: map<string, string>, keys: seq<string>, wanted: seq<string>, log: seq<Message>)
    : (out: Outcome)
    requires InTable(keys, users)
    ensures |out.printed| <= |log|
    decreases |log|
  {
    if log == [] then Outcome([], None)
    else
      var before := Filter(users, keys, wanted, log[..|log| - 1]);
      if before.failure.Some? then before
      else
        match Handle(users, keys, wanted, log[|log| - 1])
        case Failure(e) => Outcome(before.printed, Some(e))
        case Success(None) => before
        case Success(Some(entry)) => Outcome(before.printed + [entry], None)
  }

  /** The loop over the messages of one decoded file. */
  method FilterLog(users: map<string, string>, keys: seq<string>, wanted: seq<string>, log: seq<Message>)
    returns (printed: seq<Entry>, failure: Option<Error>)
    requires IterationOrder(keys, users)
    ensures Outcome(printed, failure) == Filter(users, keys, wanted, log)
  {
    printed, failure := [], None;
    var i := 0;
    while i < |log|
      invariant 0 <= i <= |log|
      invariant Filter(users, keys, wanted, log[..i]) == Outcome(printed, None)
    {
      var m := log[i];
      assert log[..i + 1][..i] == log[..i];
      if m.user.None? {
        failure := Some(MissingField("user"));
        FailurePersists(users, keys, wanted, log, i + 1);
        return;
      }
      var sender := m.user.value;
      if sender !in users {
        failure := Some(UnknownUser(sender));
        FailurePersists(users, keys, wanted, log, i + 1);
        return;
      }
      var name := users[sender];
      if wanted == [] || sender in wanted || name in wanted {
        if m.ts.None? {
          failure := Some(MissingField("ts"));
          FailurePersists(users, keys, wanted, log, i + 1);
          return;
        }
        if m.text.None? {
          failure := Some(MissingField("text"));
          FailurePersists(users, keys, wanted, log, i + 1);
          return;
        }
        var text := DereferenceUsernames(users, keys, m.text.value);
        printed := printed + [Entry(m.ts.value, name, text)];
      }
      i := i + 1;
    }
    assert log[..i] == log;
  }

  /** The messages of several files, one file after the other. */
  function Flatten(logs: seq<seq<Message>>): seq<Message>
    decreases |logs|
  {
    if logs == [] then [] else Flatten(logs[..|logs| - 1]) + logs[|logs| - 1]
  }

  /** The outer loop over the input files: the first error stops the run. */
  method FilterFiles(users: map<string, string>, keys: seq<string>, wanted: seq<string>, logs: seq<seq<Message>>)
    returns (printed: seq<Entry>, failure: Option<Error>)
    requires IterationOrder(keys, users)
    ensures Outcome(printed, failure) == Filter(users, keys, wanted, Flatten(logs))
  {
    printed, failure := [], None;
    var i := 0;
    while i < |logs|
      invariant 0 <= i <= |logs|
      invariant Filter(users, keys, wanted, Flatten(logs[..i])) == Outcome(printed, None)
    {
      assert logs[..i + 1][..i] == logs[..i];
      var more, err := FilterLog(users, keys, wanted, logs[i]);
      FilterAppend(users, keys, wanted, Flatten(logs[..i]), logs[i]);
      printed := printed + more;
      if err.Some? {
        failure := err;
        FlattenPrefixFailure(users, keys, wanted, logs, i + 1);
        return;
      }
      i := i + 1;
    }
    assert logs[..i] == logs;
  }

  /** Once a prefix of the messages fails, the run ends with that outcome. */
  lemma {:induction false} FailurePersists(users: map<string, string>, keys: seq<string>, wanted: seq<string>,
                                           log: seq<Message>, n: nat)
    requires InTable(keys, users)
    requires n <= |log| && Filter(users, keys, wanted, log[..n]).failure.Some?
    ensures Filter(users, keys, wanted, log) == Filter(users, keys, wanted, log[..n])
    decreases |log| - n
  {
    if n == |log| {
      assert log[..n] == log;
    } else {
      var m := |log| - 1;
      assert log[..m][..n] == log[..n];
      FailurePersists(users, keys, wanted, log[..m], n);
    }
  }

  /** Running the loop over `a + b` is running it over `a` and, if that did
      not fail, then over `b`. */
  lemma {:induction false} FilterAppend(users: map<string, string>, keys: seq<string>, wanted: seq<string>,
                                        a: seq<Message>, b: seq<Message>)
    requires InTable(keys, users)
    ensures var fa := Filter(users, keys, wanted, a);
      var fb := Filter(users, keys, wanted, b);
      Filter(users, keys, wanted, a + b) ==
        if fa.failure.Some? then fa else Outcome(fa.printed + fb.printed, fb.failure)
    decreases |b|
  {
    var fa := Filter(users, keys, wanted, a);
    if b == [] {
      assert a + b == a;
    } else {
      var m := |b| - 1;
      FilterAppend(users, keys, wanted, a, b[..m]);
      assert (a + b)[..|a + b| - 1] == a + b[..m];
      assert (a + b)[|a + b| - 1] == b[m];
      var fb := Filter(users, keys, wanted, b[..m]);
      if fa.failure.None? && fb.failure.None? {
        match Handle(users, keys, wanted, b[m])
        case Failure(e) =>
        case Success(None) =>
        case Success(Some(entry)) =>
          assert fa.printed + fb.printed + [entry] == fa.printed + (fb.printed + [entry]);
      }
    }
  }

  lemma FlattenPrefixFailure(users: map<string, string>, keys: seq<string>, wanted: seq<string>,
                             logs: seq<seq<Message>>, n: nat)
    requires InTable(keys, users)
    requires n <= |logs| && Filter(users, keys, wanted, Flatten(logs[..n])).failure.Some?
    ensures Filter(users, keys, wanted, Flatten(logs)) == Filter(users, keys, wanted, Flatten(logs[..n]))
  {
    FlattenPrefix(logs, n);
    var rest := Flatten(logs)[|Flatten(logs[..n])|..];
    assert Flatten(logs) == Flatten(logs[..n]) + rest;
    FilterAppend(users, keys, wanted, Flatten(logs[..n]), rest);
  }

  /** The messages of the first `n` files come first. */
  lemma {:induction false} FlattenPrefix(logs: seq<seq<Message>>, n: nat)
    requires n <= |logs|
    ensures Flatten(logs[..n]) <= Flatten(logs)
    decreases |logs| - n
  {
    if n < |logs| {
      var m := |logs| - 1;
      assert logs[..m][..n] == logs[..n];
      FlattenPrefix(logs[..m], n);
    } else {
      assert logs[..n] == logs;
    }
  }

  /** With an empty `--username` list every message is output, in order,
      provided none is missing a key or has an unknown sender. */
  lemma {:induction false} EmptyFilterShowsAll(users: map<string, string>, keys: seq<string>, log: seq<Message>)
    requires InTable(keys, users)
    requires forall i | 0 <= i < |log| :: Complete(users, log[i])
    ensures var out := Filter(users, keys, [], log);
      && out.failure == None
      && |out.printed| == |log|
      && forall i | 0 <= i < |log| :: out.printed[i] == Render(users, keys, log[i])
    decreases |log|
  {
    if log != [] {
      var m := |log| - 1;
      assert forall i | 0 <= i < m :: log[..m][i] == log[i];
      EmptyFilterShowsAll(users, keys, log[..m]);
    }
  }

  /** The positions of the selected messages, in increasing order. */
  function SelectedIndices(users: map<string, string>, wanted: seq<string>, log: seq<Message>): seq<nat>
    decreases |log|
  {
    if log == [] then []
    else
      var m := |log| - 1;
      var before := SelectedIndices(users, wanted, log[..m]);
      if IsSelected(users, wanted, log[m]) then before + [m] else before
  }

  /** A run that does not fail outputs exactly the selected messages, as a
      subsequence of the input in its original order: output `j` renders
      input `idx[j]`, the positions increase, and a position is listed iff
      its message is selected. */
  lemma {:induction false} FilterIsOrderedSelection(users: map<string, string>, keys: seq<string>,
                                                    wanted: seq<string>, log: seq<Message>)
    requires InTable(keys, users)
    requires Filter(users, keys, wanted, log).failure.None?
    ensures var out := Filter(users, keys, wanted, log).printed;
      var idx := SelectedIndices(users, wanted, log);
      && |idx| == |out|
      && (forall j, k | 0 <= j < k < |idx| :: idx[j] < idx[k])
      && (forall j | 0 <= j < |idx| :: idx[j] < |log| && Complete(users, log[idx[j]])
                                       && out[j] == Render(users, keys, log[idx[j]]))
      && (forall i | 0 <= i < |log| :: i in idx <==> IsSelected(users, wanted, log[i]))
  {
    SelectedIndicesOrdered(users, wanted, log);
    FilterRendersSelected(users, keys, wanted, log);
  }

  /** The selected positions increase, lie inside the log, and are exactly
      those of the selected messages. */
  lemma {:induction false} SelectedIndicesOrdered(users: map<string, string>, wanted: seq<string>,
                                                  log: seq<Message>)
    ensures var idx := SelectedIndices(users, wanted, log);
      && (forall j | 0 <= j < |idx| :: idx[j] < |log|)
      && (forall j, k | 0 <= j < k < |idx| :: idx[j] < idx[k])
      && (forall i | 0 <= i < |log| :: i in idx <==> IsSelected(users, wanted, log[i]))
    decreases |log|
  {
    if log != [] {
      var m := |log| - 1;
      var prefix := log[..m];
      SelectedIndicesOrdered(users, wanted, prefix);
      assert forall i | 0 <= i < m :: prefix[i] == log[i];
    }
  }

  /** Output `j` of a run that does not fail renders the message at the
      `j`-th selected position. */
  lemma {:induction false} FilterRendersSelected(users: map<string, string>, keys: seq<string>,
                                                 wanted: seq<string>, log: seq<Message>)
    requires InTable(keys, users)
    requires Filter(users, keys, wanted, log).failure.None?
    ensures var out := Filter(users, keys, wanted, log).printed;
      var idx := SelectedIndices(users, wanted, log);
      && |idx| == |out|
      && (forall j | 0 <= j < |idx| :: idx[j] < |log| && Complete(users, log[idx[j]])
                                       && out[j] == Render(users, keys, log[idx[j]]))
    decreases |log|
  {
    if log != [] {
      var m := |log| - 1;
      var prefix := log[..m];
      var before := Filter(users, keys, wanted, prefix);
      assert before.failure.None?;
      FilterRendersSelected(users, keys, wanted, prefix);
      var idx0 := SelectedIndices(users, wanted, prefix);
      assert forall j | 0 <= j < |idx0| :: prefix[idx0[j]] == log[idx0[j]];
      var h := Handle(users, keys, wanted, log[m]);
      assert h.Success?;
      if h.value.Some? {
        assert IsSelected(users, wanted, log[m]) && Complete(users, log[m]);
      } else {
        assert !IsSelected(users, wanted, log[m]);
      }
    }
  }

  /** A message with no `user` key, or whose sender is not in the table,
      is an error rather than a skipped message: the run fails, and what is
      output is what the messages before it output, nothing from that
      message or any later one. */
  lemma BadSenderFails(users: map<string, string>, keys: seq<string>, wanted: seq<string>,
                       log: seq<Message>, i: nat)
    requires InTable(keys, users)
    requires i < |log| && (log[i].user.None? || log[i].user.value !in users)
    ensures Filter(users, keys, wanted, log).failure.Some?
    ensures Filter(users, keys, wanted, log).printed == Filter(users, keys, wanted, log[..i]).printed
    ensures |Filter(users, keys, wanted, log).printed| <= i
  {
    var upto := log[..i + 1];
    assert upto[..i] == log[..i];
    assert upto[i] == log[i];
    PrintedBound(users, keys, wanted, log[..i]);
    FailurePersists(users, keys, wanted, log, i + 1);
  }

  /** At most one entry is output per message. */
  lemma {:induction false} PrintedBound(users: map<string, string>, keys: seq<string>, wanted: seq<string>,
                                        log: seq<Message>)
    requires InTable(keys, users)
    ensures |Filter(users, keys, wanted, log).printed| <= |log|
    decreases |log|
  {
    if log != [] {
      PrintedBound(users, keys, wanted, log[..|log| - 1]);
    }
  }

  /** The run fails exactly when some message's pass of the loop raises. */
  lemma {:induction false} FailsIff(users: map<string, string>, keys: seq<string>, wanted: seq<string>,
                                    log: seq<Message>)
    requires InTable(keys, users)
    ensures Filter(users, keys, wanted, log).failure.None? <==>
      forall i | 0 <= i < |log| :: Handle(users, keys, wanted, log[i]).Success?
    decreases |log|
  {
    if log != [] {
      var m := |log| - 1;
      FailsIff(users, keys, wanted, log[..m]);
      assert forall i | 0 <= i < m :: log[..m][i] == log[i];
    }
  }
}
