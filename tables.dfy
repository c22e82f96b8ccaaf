/**
 * The callback tables of the BUNDY server mixin.  Each of the server's
 * `_read_callbacks`, `_write_callbacks` and `_error_callbacks` is a
 * dictionary from a file number to the list of callbacks registered for it.
 * A dictionary remembers the order in which its keys were inserted, and the
 * server hands `list(d.keys())` to select, so a table here is that key order
 * together with the lists.
 */
module CallbackTables {

  type FileNo = int

  /** A callable registered with watch_fileno; the model never looks inside one. */
  type Callback

  datatype Option<+T> = None | Some(value: T)

  ghost predicate Distinct<T>(s: seq<T>)
  {
    forall i, j :: 0 <= i < j < |s| ==> s[i] != s[j]
  }

  /** `order` holds the keys of `lists` in insertion order. */
  datatype CallbackTable = CallbackTable(order: seq<FileNo>, lists: map<FileNo, seq<Callback>>)
  {
    /** What every table the server builds satisfies: each key once in
        `order`, exactly the keys of `lists`, and no key with an empty list. */
    ghost predicate Valid()
    {
      && Distinct(order)
      && (forall fd :: fd in lists <==> fd in order)
      && (forall fd :: fd in lists ==> lists[fd] != [])
    }

    /** The callbacks registered for `fd` in registration order; none when
        `fd` is not a key. */
    function Lookup(fd: FileNo): (cbs: seq<Callback>)
    {
      if fd in lists then lists[fd] else []
    }
  }

  /** The empty dictionary `{}` the server starts with. */
  const Empty: CallbackTable := CallbackTable([], map[])

  /** `s` with `x` taken out, the rest in their order (what deleting a
      dictionary key does to the key order). */
  function RemoveFrom(s: seq<FileNo>, x: FileNo): (r: seq<FileNo>)
    ensures forall y :: y in r <==> y in s && y != x
    ensures |r| <= |s|
  {
    if s == [] then []
    else (if s[0] == x then [] else [s[0]]) + RemoveFrom(s[1..], x)
  }

  lemma {:induction false} RemoveFromDistinct(s: seq<FileNo>, x: FileNo)
    ensures Distinct(s) ==> Distinct(RemoveFrom(s, x))
  {
    if s != [] && Distinct(s) {
      assert Distinct(s[1..]) by {
        forall i, j | 0 <= i < j < |s[1..]| ensures s[1..][i] != s[1..][j] {
          assert s[1..][i] == s[i + 1] && s[1..][j] == s[j + 1];
        }
      }
      RemoveFromDistinct(s[1..], x);
      var rest := RemoveFrom(s[1..], x);
      assert s[0] !in s[1..] by {
        forall k | 0 <= k < |s[1..]| ensures s[1..][k] != s[0] {
          assert s[1..][k] == s[k + 1];
        }
      }
      assert s[0] !in rest;
      if s[0] != x {
        var r := [s[0]] + rest;
        forall i, j | 0 <= i < j < |r| ensures r[i] != r[j] {
          if i == 0 {
            assert r[j] == rest[j - 1];
            assert rest[j - 1] in rest;
          } else {
            assert r[i] == rest[i - 1] && r[j] == rest[j - 1];
          }
        }
      } else {
        assert RemoveFrom(s, x) == rest;
      }
    }
  }

  /** Removing a value just appended, and not there before, gives back the original. */
  lemma {:induction false} RemoveFromAppended(s: seq<FileNo>, x: FileNo)
    requires x !in s
    ensures RemoveFrom(s + [x], x) == s
  {
    if s == [] {
      assert RemoveFrom([x], x) == [] + RemoveFrom([x][1..], x);
      assert [x][1..] == [];
    } else {
      assert (s + [x])[0] == s[0];
      assert (s + [x])[1..] == s[1..] + [x];
      RemoveFromAppended(s[1..], x);
      assert [s[0]] + s[1..] == s;
    }
  }

  /** watch_fileno for one kind with a callback: append it to the list of
      `fd`, or start a one-element list under a new key. */
  function Add(t: CallbackTable, fd: FileNo, cb: Callback): (r: CallbackTable)
    ensures r.Lookup(fd) == t.Lookup(fd) + [cb]
    ensures forall k :: k != fd ==> r.Lookup(k) == t.Lookup(k)
    ensures fd in t.lists ==> r.order == t.order
    ensures fd !in t.lists ==> r.order == t.order + [fd]
    ensures t.Valid() ==> r.Valid()
  {
    if fd in t.lists then CallbackTable(t.order, t.lists[fd := t.lists[fd] + [cb]])
    else CallbackTable(t.order + [fd], t.lists[fd := [cb]])
  }

  /** `del d[fd]` for a key that is present: the whole entry goes, the other
      keys keep their lists and their order. */
  function Remove(t: CallbackTable, fd: FileNo): (r: CallbackTable)
    requires fd in t.lists
    ensures fd !in r.lists && r.Lookup(fd) == []
    ensures forall k :: k != fd ==> r.Lookup(k) == t.Lookup(k)
    ensures r.order == RemoveFrom(t.order, fd)
    ensures t.Valid() ==> r.Valid()
  {
    RemoveFromDistinct(t.order, fd);
    CallbackTable(RemoveFrom(t.order, fd), t.lists - {fd})
  }

  /** Watching a file number that had no entry and then deleting its entry
      gives back the table as it was, key order included. */
  lemma RemoveAfterAdd(t: CallbackTable, fd: FileNo, cb: Callback)
    requires t.Valid() && fd !in t.lists
    ensures Remove(Add(t, fd, cb), fd) == t
  {
    RemoveFromAppended(t.order, fd);
    assert t.lists[fd := [cb]] - {fd} == t.lists;
  }

  /** The callbacks invoked, in order, when select reports `fds`: each
      reported file number's list in turn, unregistered ones skipped. */
  function Fire(t: CallbackTable, fds: seq<FileNo>): (r: seq<Callback>)
    ensures (forall fd :: fd in fds ==> fd !in t.lists) ==> r == []
    ensures |fds| == 1 ==> r == t.Lookup(fds[0])
  {
    if fds == [] then [] else t.Lookup(fds[0]) + Fire(t, fds[1..])
  }

  /** One more reported file number adds its callbacks at the end. */
  lemma {:induction false} FireAppend(t: CallbackTable, fds: seq<FileNo>, fd: FileNo)
    ensures Fire(t, fds + [fd]) == Fire(t, fds) + t.Lookup(fd)
  {
    if fds == [] {
      assert Fire(t, [fd]) == t.Lookup(fd) + Fire(t, []);
    } else {
      assert (fds + [fd])[0] == fds[0];
      assert (fds + [fd])[1..] == fds[1..] + [fd];
      FireAppend(t, fds[1..], fd);
    }
  }

  /** A callback is invoked exactly when one of the reported file numbers
      has it registered. */
  lemma {:induction false} FireMember(t: CallbackTable, fds: seq<FileNo>, cb: Callback)
    ensures cb in Fire(t, fds) <==> exists fd :: fd in fds && cb in t.Lookup(fd)
  {
    if fds != [] {
      FireMember(t, fds[1..], cb);
      if cb in Fire(t, fds) && cb !in t.Lookup(fds[0]) {
        var fd :| fd in fds[1..] && cb in t.Lookup(fd);
        assert fd in fds;
      }
      if exists fd :: fd in fds && cb in t.Lookup(fd) {
        var fd :| fd in fds && cb in t.Lookup(fd);
        if fd != fds[0] {
          assert fd in fds[1..];
        }
      }
    }
  }

  /** Once the entry of `fd` is deleted, a round invokes what it would have
      invoked had select never reported `fd`. */
  lemma {:induction false} FireAfterRemove(t: CallbackTable, fd: FileNo, fds: seq<FileNo>)
    requires fd in t.lists
    ensures Fire(Remove(t, fd), fds) == Fire(t, RemoveFrom(fds, fd))
  {
    if fds != [] {
      FireAfterRemove(t, fd, fds[1..]);
      if fds[0] == fd {
        assert RemoveFrom(fds, fd) == RemoveFrom(fds[1..], fd);
      } else {
        var s := RemoveFrom(fds, fd);
        assert s == [fds[0]] + RemoveFrom(fds[1..], fd);
        assert s[0] == fds[0] && s[1..] == RemoveFrom(fds[1..], fd);
      }
    }
  }
}
