/** The table from user id to user name: seeded with the Slackbot entry and
    then updated from the decoded records of the users file, in order. */
module UserTable {
  import opened Wrappers

  /** One decoded record of the users file; a key the JSON object lacks is
      `None`. */
  datatype UserRecord = UserRecord(id: Option<string>, name: Option<string>)

  const SLACKBOT_ID: string := "USLACKBOT"
  const SLACKBOT_NAME: string := "slackbot"

  /** The table before any record is read. */
  function Seed(): map<string, string> {
    map[SLACKBOT_ID := SLACKBOT_NAME]
  }

  /** The table after the records have been applied in order. Each record
      reads `name` before `id` (the right-hand side of the assignment is
      evaluated first), and the first record missing either key aborts. */
  function Table(records: seq<UserRecord>): (r: Result<map<string, string>, Error>)
    ensures r.Success? ==> SLACKBOT_ID in r.value
    decreases |records|
  {
    if records == [] then Success(Seed())
    else
      var u := records[|records| - 1];
      match Table(records[..|records| - 1])
      case Failure(e) => Failure(e)
      case Success(users) =>
        if u.name.None? then Failure(MissingField("name"))
        else if u.id.None? then Failure(MissingField("id"))
        else Success(users[u.id.value := u.name.value])
  }

  /** A record carrying both keys. */
  predicate WellFormed(u: UserRecord) {
    u.id.Some? && u.name.Some?
  }

  /** Builds the table with a loop over the records, as the script does. No
      users file gives the same table as an empty list of records. */
  method Build(records: seq<UserRecord>) returns (r: Result<map<string, string>, Error>)
    ensures r == Table(records)
  {
    var users := map[SLACKBOT_ID := SLACKBOT_NAME];
    var i := 0;
    while i < |records|
      invariant 0 <= i <= |records|
      invariant Table(records[..i]) == Success(users)
    {
      var u := records[i];
      assert records[..i + 1][..i] == records[..i];
      if u.name.None? {
        FailurePersists(records, i + 1);
        return Failure(MissingField("name"));
      }
      if u.id.None? {
        FailurePersists(records, i + 1);
        return Failure(MissingField("id"));
      }
      users := users[u.id.value := u.name.value];
      i := i + 1;
    }
    assert records[..i] == records;
    r := Success(users);
  }

  /** Once a prefix of the records fails, the whole build fails the same way. */
  lemma {:induction false} FailurePersists(records: seq<UserRecord>, n: nat)
    requires n <= |records| && Table(records[..n]).Failure?
    ensures Table(records) == Table(records[..n])
    decreases |records| - n
  {
    if n == |records| {
      assert records[..n] == records;
    } else {
      var m := |records| - 1;
      assert records[..m][..n] == records[..n];
      FailurePersists(records[..m], n);
    }
  }

  /** The build succeeds exactly when every record carries both keys. */
  lemma {:induction false} TableSucceedsIff(records: seq<UserRecord>)
    ensures Table(records).Success? <==> forall i | 0 <= i < |records| :: WellFormed(records[i])
    decreases |records|
  {
    if records != [] {
      var m := |records| - 1;
      TableSucceedsIff(records[..m]);
      assert forall i | 0 <= i < m :: records[..m][i] == records[i];
    }
  }

  /** The keys of a built table are the Slackbot id and the ids of the
      records. */
  lemma {:induction false} TableKeys(records: seq<UserRecord>, k: string)
    requires Table(records).Success?
    ensures k in Table(records).value <==>
      k == SLACKBOT_ID || exists i | 0 <= i < |records| :: records[i].id == Some(k)
    decreases |records|
  {
    if records != [] {
      var m := |records| - 1;
      TableKeys(records[..m], k);
      assert forall i | 0 <= i < m :: records[..m][i] == records[i];
    }
  }

  /** The last record with a given id decides that id's name. */
  lemma {:induction false} LastRecordWins(records: seq<UserRecord>, i: nat)
    requires Table(records).Success? && i < |records|
    requires forall j | i < j < |records| :: records[j].id != records[i].id
    ensures records[i].id.Some? && records[i].name.Some?
    ensures records[i].id.value in Table(records).value
    ensures Table(records).value[records[i].id.value] == records[i].name.value
    decreases |records|
  {
    var m := |records| - 1;
    assert Table(records[..m]).Success?;
    if i < m {
      assert records[..m][i] == records[i];
      LastRecordWins(records[..m], i);
    }
  }

  /** An id no record carries keeps the value it had before the records were
      read: the Slackbot entry, or no entry at all. */
  lemma {:induction false} UntouchedIdKeepsSeed(records: seq<UserRecord>, k: string)
    requires Table(records).Success?
    requires forall j | 0 <= j < |records| :: records[j].id != Some(k)
    ensures k in Table(records).value <==> k in Seed()
    ensures k in Seed() ==> Table(records).value[k] == Seed()[k]
    decreases |records|
  {
    if records != [] {
      var m := |records| - 1;
      assert forall j | 0 <= j < m :: records[..m][j] == records[j];
      UntouchedIdKeepsSeed(records[..m], k);
    }
  }

  /** Slackbot is named `slackbot` unless a record with its id renames it. */
  lemma {:induction false} SlackbotSeed(records: seq<UserRecord>)
    requires Table(records).Success?
    requires forall j | 0 <= j < |records| :: records[j].id != Some(SLACKBOT_ID)
    ensures SLACKBOT_ID in Table(records).value && Table(records).value[SLACKBOT_ID] == SLACKBOT_NAME
  {
    UntouchedIdKeepsSeed(records, SLACKBOT_ID);
  }
}
