/**
 The in-memory user registry of list_users.py: a table keyed by the lower-cased
 user name, whose values record the name as submitted and the password.
 */
module Users {
  import opened Wrappers

  /** Lower-casing of one character; only the ASCII letters A-Z change. */
  function LowerChar(c: char): char
  {
    if 'A' <= c <= 'Z' then (c as int - 'A' as int + 'a' as int) as char else c
  }

  /** The model of Python's `str.lower()`, restricted to ASCII letters. */
  function Lower(s: string): string
  {
    seq(|s|, i requires 0 <= i < |s| => LowerChar(s[i]))
  }

  /**
   A stored user. The source's dictionary holds only `display_name` and
   `password`; `status` and `created_at` are read with `dict.get` and are
   therefore `None` unless some record held them.
   */
  datatype Record = Record(displayName: string, password: string, status: Option<string>, createdAt: Option<string>)

  /** The record `add_user` stores: name and password verbatim, nothing else. */
  function NewRecord(name: string, password: string): Record
  {
    Record(name, password, None, None)
  }

  /** The registry table's invariant: each key is the lower-casing of its record's display name, and no record holds the optional fields. */
  ghost predicate Consistent(users: map<string, Record>)
  {
    forall k :: k in users ==>
      Lower(users[k].displayName) == k && users[k].status == None && users[k].createdAt == None
  }

  ghost predicate NoDuplicates(s: seq<string>)
  {
    forall i, j :: 0 <= i < j < |s| ==> s[i] != s[j]
  }

  /** `order` lists every key of `users` exactly once (the dictionary's key order). */
  ghost predicate Lists(order: seq<string>, users: map<string, Record>)
  {
    NoDuplicates(order) && forall k :: k in order <==> k in users
  }

  /** A duplicate-free sequence is as long as the set of keys it enumerates. */
  lemma {:induction false} ListedCount(order: seq<string>, keys: set<string>)
    requires NoDuplicates(order)
    requires forall k :: k in order <==> k in keys
    ensures |order| == |keys|
  {
    if order != [] {
      var rest := keys - {order[0]};
      forall k ensures k in order[1..] <==> k in rest {
        if k in order[1..] {
          var j :| 1 <= j < |order| && order[j] == k;
          assert order[0] != order[j];
        }
        if k in rest {
          assert k in order && k != order[0];
          var j :| 0 <= j < |order| && order[j] == k;
          assert order[1..][j - 1] == k;
        }
      }
      assert NoDuplicates(order[1..]) by {
        forall i, j | 0 <= i < j < |order| - 1 ensures order[1..][i] != order[1..][j] {
          assert order[i + 1] != order[j + 1];
        }
      }
      ListedCount(order[1..], rest);
    }
  }

  /** The registry `Context`, holding the module-level dictionary `users` as a field. */
  class Registry {
    /** Lower-cased name to record. */
    var users: map<string, Record>
    /** The keys of `users` in insertion order, as Python dictionaries iterate. */
    var order: seq<string>

    ghost predicate Valid()
      reads this
    {
      Consistent(users) && Lists(order, users)
    }

    /** The registry starts empty. */
    constructor ()
      ensures Valid()
      ensures users == map[] && order == []
    {
      users := map[];
      order := [];
    }

    /** `Context.get_users`: the stored keys, each once, in insertion order. */
    function GetUsers(): (r: seq<string>)
      reads this
      requires Valid()
      ensures NoDuplicates(r)
      ensures forall k :: k in r <==> k in users
      ensures |r| == |users|
    {
      ListedCount(order, users.Keys);
      order
    }

    /** `Context.get_user`: case-insensitive lookup, `None` when the lower-cased name is no key. */
    function GetUser(name: string): (r: Option<Record>)
      reads this
      requires Valid()
      ensures r.Some? <==> Lower(name) in users
      ensures r.Some? ==> r.value == users[Lower(name)]
      ensures r.Some? ==> Lower(r.value.displayName) == Lower(name)
      ensures r.Some? ==> r.value.status == None && r.value.createdAt == None
    {
      if Lower(name) in users then Some(users[Lower(name)]) else None
    }

    /**
     `Context.add_user`: insert-if-absent under the lower-cased name. A taken
     name fails and changes nothing; otherwise exactly one entry is added.
     */
    method AddUser(name: string, password: string) returns (ok: bool)
      requires Valid()
      modifies this
      ensures Valid()
      ensures ok <==> Lower(name) !in old(users)
      ensures !ok ==> users == old(users) && order == old(order)
      ensures !ok ==> Lower(users[Lower(name)].displayName) == Lower(name)
      ensures ok ==> users == old(users)[Lower(name) := NewRecord(name, password)]
      ensures ok ==> order == old(order) + [Lower(name)]
      ensures ok ==> |users| == |old(users)| + 1
      ensures ok ==> forall m :: Lower(m) == Lower(name) ==> GetUser(m) == Some(NewRecord(name, password))
    {
      var key := Lower(name);
      if key in users {
        return false;
      }
      users := users[key := NewRecord(name, password)];
      order := order + [key];
      ok := true;
    }
  }

  /** `get_user` answers alike for any two names with the same lower-casing. */
  lemma GetUserCaseInsensitive(reg: Registry, m: string, n: string)
    requires reg.Valid()
    requires Lower(m) == Lower(n)
    ensures reg.GetUser(m) == reg.GetUser(n)
  {
  }

  /**
   Case-insensitive uniqueness: after "Bob" is added, adding "bob" fails and
   the record under "bob" keeps the first display name and password.
   */
  method CaseVariantScenario() returns (first: bool, second: bool, kept: Option<Record>)
    ensures first && !second
    ensures kept == Some(NewRecord("Bob", "x"))
  {
    var reg := new Registry();
    first := reg.AddUser("Bob", "x");
    assert Lower("Bob") == "bob" == Lower("bob");
    second := reg.AddUser("bob", "y");
    kept := reg.GetUser("bob");
  }
}
