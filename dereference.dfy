/** `dereference_usernames`: every user id of the table that occurs in a
    message text is replaced by the user's name, key after key, in the order
    the dictionary is iterated. Python 2 leaves that order unspecified, so it
    is a parameter here. */
module Dereference {
  import opened PyString

  /** `keys` is an order in which a dictionary `users` may be iterated: every
      key exactly once. */
  predicate IterationOrder(keys: seq<string>, users: map<string, string>) {
    && Distinct(keys)
    && (forall i | 0 <= i < |keys| :: keys[i] in users)
    && (forall k | k in users :: k in keys)
  }

  /** No key appears twice. */
  predicate Distinct(keys: seq<string>) {
    forall i, j | 0 <= i < j < |keys| :: keys[i] != keys[j]
  }

  /** Every key of the order is in the table. */
  predicate InTable(keys: seq<string>, users: map<string, string>) {
    forall i | 0 <= i < |keys| :: keys[i] in users
  }

  /** The text after the replacements for `keys`, in that order. */
  function Dereferenced(users: map<string, string>, keys: seq<string>, text: string): (r: string)
    requires InTable(keys, users)
    ensures (forall i | 0 <= i < |keys| :: Count(text, keys[i]) == 0) ==> r == text
    decreases |keys|
  {
    if keys == [] then text
    else
      var k := keys[|keys| - 1];
      Replace(Dereferenced(users, keys[..|keys| - 1], text), k, users[k])
  }

  /** The loop of the script: `text` is reassigned once per key. */
  method DereferenceUsernames(users: map<string, string>, keys: seq<string>, text: string)
    returns (r: string)
    requires IterationOrder(keys, users)
    ensures r == Dereferenced(users, keys, text)
  {
    r := text;
    for i := 0 to |keys|
      invariant r == Dereferenced(users, keys[..i], text)
    {
      assert keys[..i + 1][..i] == keys[..i];
      r := Replace(r, keys[i], users[keys[i]]);
    }
    assert keys[..|keys|] == keys;
  }

  /** With an empty table the text comes back unchanged. */
  lemma EmptyTable(keys: seq<string>, text: string)
    requires IterationOrder(keys, map[])
    ensures Dereferenced(map[], keys, text) == text
  {
  }

  /** If no key of the table occurs in the text, the text comes back
      unchanged, whatever the iteration order. */
  lemma {:induction false} NoKeyOccurs(users: map<string, string>, keys: seq<string>, text: string)
    requires InTable(keys, users)
    requires forall k | k in users :: !Occurs(text, k)
    ensures Dereferenced(users, keys, text) == text
    decreases |keys|
  {
    if keys != [] {
      var m := |keys| - 1;
      NoKeyOccurs(users, keys[..m], text);
      ReplaceAbsent(text, keys[m], users[keys[m]]);
    }
  }

  /** `keys` without `k`. */
  function Without(keys: seq<string>, k: string): (r: seq<string>)
    ensures forall x :: x in r <==> x in keys && x != k
    decreases |keys|
  {
    if keys == [] then []
    else
      var last := keys[|keys| - 1];
      var rest := Without(keys[..|keys| - 1], k);
      if last == k then rest else rest + [last]
  }

  /** An entry that maps a key to itself has no effect: dereferencing gives the
      same text as with that entry removed from the table and from the
      iteration order. */
  lemma SelfEntry(users: map<string, string>, keys: seq<string>, k: string, text: string)
    requires IterationOrder(keys, users)
    requires k in users && users[k] == k
    ensures IterationOrder(Without(keys, k), users - {k})
    ensures Dereferenced(users, keys, text) == Dereferenced(users - {k}, Without(keys, k), text)
  {
    WithoutDistinct(keys, k);
    SelfEntrySkipped(users, keys, k, text);
  }

  lemma {:induction false} WithoutDistinct(keys: seq<string>, k: string)
    requires Distinct(keys)
    ensures Distinct(Without(keys, k))
    decreases |keys|
  {
    if keys != [] {
      var m := |keys| - 1;
      WithoutDistinct(keys[..m], k);
      var rest := Without(keys[..m], k);
      assert keys[m] !in keys[..m];
      assert keys[m] !in rest;
      if keys[m] != k {
        var r := rest + [keys[m]];
        assert Without(keys, k) == r;
        forall i, j | 0 <= i < j < |r|
          ensures r[i] != r[j]
        {
          assert r[i] == rest[i];
          if j == |rest| {
            assert r[i] in rest;
          } else {
            assert r[j] == rest[j];
          }
        }
      }
    }
  }

  lemma {:induction false} SelfEntrySkipped(users: map<string, string>, keys: seq<string>, k: string, text: string)
    requires InTable(keys, users)
    requires k in users && users[k] == k
    ensures InTable(Without(keys, k), users - {k})
    ensures Dereferenced(users, keys, text) == Dereferenced(users - {k}, Without(keys, k), text)
    decreases |keys|
  {
    if keys != [] {
      var m := |keys| - 1;
      SelfEntrySkipped(users, keys[..m], k, text);
      if keys[m] == k {
        ReplaceSelf(Dereferenced(users, keys[..m], text), k);
      } else {
        var rest := Without(keys[..m], k);
        assert (rest + [keys[m]])[..|rest|] == rest;
      }
    }
  }

  /** The result depends on the iteration order when one id is a prefix of
      another: with `U1 -> a` and `U12 -> b`, the text `U12` becomes `a2` when
      `U1` is replaced first and `b` when `U12` is. */
  lemma OrderMatters()
    ensures var users := map["U1" := "a", "U12" := "b"];
      && IterationOrder(["U1", "U12"], users)
      && IterationOrder(["U12", "U1"], users)
      && Dereferenced(users, ["U1", "U12"], "U12") == "a2"
      && Dereferenced(users, ["U12", "U1"], "U12") == "b"
  {
    var users := map["U1" := "a", "U12" := "b"];
    assert ["U1", "U12"][..1] == ["U1"];
    assert ["U12", "U1"][..1] == ["U12"];
    assert Replace("U12", "U1", "a") == "a2" by {
      assert "U1" <= "U12";
      assert "U12"[2..] == "2";
      assert !("U1" <= "2");
      assert "2"[1..] == "";
    }
    assert Replace("a2", "U12", "b") == "a2" by {
      assert !("U12" <= "a2");
      assert "a2"[1..] == "2";
      assert !("U12" <= "2");
      assert "2"[1..] == "";
    }
    assert Replace("U12", "U12", "b") == "b" by {
      assert "U12"[3..] == "";
    }
    assert Replace("b", "U1", "a") == "b" by {
      assert !("U1" <= "b");
      assert "b"[1..] == "";
    }
  }
}
