/** The script from top to bottom: build the user table, then run the message
    loop over every input file. */
module Script {
  import opened Wrappers
  import UserTable
  import opened Dereference
  import opened MessageFilter

  /** `keys` is the order in which the built table is iterated. A users file
      with a bad record stops the run before any message is read. */
  method Run(records: seq<UserTable.UserRecord>, keys: seq<string>, wanted: seq<string>,
             logs: seq<seq<Message>>)
    returns (printed: seq<Entry>, failure: Option<Error>)
    requires UserTable.Table(records).Success? ==> IterationOrder(keys, UserTable.Table(records).value)
    ensures UserTable.Table(records).Failure? ==>
      printed == [] && failure == Some(UserTable.Table(records).error)
    ensures UserTable.Table(records).Success? ==>
      Outcome(printed, failure) == Filter(UserTable.Table(records).value, keys, wanted, Flatten(logs))
  {
    var table := UserTable.Build(records);
    if table.Failure? {
      return [], Some(table.error);
    }
    printed, failure := FilterFiles(table.value, keys, wanted, logs);
  }
}
