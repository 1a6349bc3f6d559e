/** The state of a Properties object as a value, and every operation on it as a
    function: the class in properties.dfy is proved to follow these, and the parser's
    Step is built from Open and Assign. */
module Stores {
  import opened Wrappers
  import Assoc

  /** The name of the namespace every Properties object starts with. */
  const DefaultNamespace: string := "_default_"

  /** One namespace's table: insertion-ordered (key, value) pairs. */
  type Table = seq<(string, string)>

  /** The store: the namespace tables in insertion order, the name the Namespace getter
      reports (current_key), and the name under which the cursor's table
      (current_namespace) is stored. The two names differ only after a failed select. */
  datatype Store = Store(spaces: seq<(string, Table)>, currentKey: string, cursorTable: string)

  /** The exceptions the operations raise: getNamespace's "No such namespace", and the
      ArgumentException of ListDictionary.Add on a key that is already present. */
  datatype Error = NoSuchNamespace | DuplicateKey

  /** No duplicate namespace, no duplicate key in a table, and the cursor's table stored. */
  predicate WellFormed(s: Store)
  {
    && Assoc.DistinctKeys(s.spaces)
    && Assoc.HasKey(s.spaces, s.cursorTable)
    && forall p :: p in s.spaces ==> Assoc.DistinctKeys(p.1)
  }

  /** Init: one empty namespace "_default_", both cursor fields on it. */
  function Initial(): (s: Store)
    ensures WellFormed(s)
  {
    var s := Store([(DefaultNamespace, [])], DefaultNamespace, DefaultNamespace);
    assert s.spaces[0].0 == s.cursorTable;
    s
  }

  /** The table the cursor refers to. */
  function CursorTable(s: Store): (t: Table)
    requires WellFormed(s)
    ensures (s.cursorTable, t) in s.spaces
  {
    Assoc.LookupHasKey(s.spaces, s.cursorTable);
    Assoc.Lookup(s.spaces, s.cursorTable).value
  }

  /** The store with the table under name set to t (replaced in place, or appended). */
  function WithTable(s: Store, name: string, t: Table): Store
  {
    s.(spaces := Assoc.Put(s.spaces, name, t))
  }

  /** Replacing or adding a table without duplicate keys keeps a store well formed,
      wherever the cursor then points among the stored names. */
  lemma {:induction false} WithTableWellFormed(s: Store, name: string, t: Table, cursor: string)
    requires WellFormed(s) && Assoc.DistinctKeys(t)
    requires cursor == name || cursor == s.cursorTable
    ensures WellFormed(WithTable(s, name, t).(cursorTable := cursor))
  {
    Assoc.PutDistinct(s.spaces, name, t);
    var r := Assoc.Put(s.spaces, name, t);
    Assoc.LookupPut(s.spaces, name, t, cursor);
    Assoc.LookupHasKey(r, cursor);
    Assoc.LookupHasKey(s.spaces, cursor);
  }

  /** getNamespace: the table stored under name, or the "No such namespace" exception. */
  function TableNamed(s: Store, name: string): (r: Result<Table, Error>)
    ensures r.Success? <==> Assoc.HasKey(s.spaces, name)
    ensures r.Success? ==> (name, r.value) in s.spaces
    ensures r.Failure? ==> r.error == NoSuchNamespace
  {
    Assoc.LookupHasKey(s.spaces, name);
    match Assoc.Lookup(s.spaces, name)
    case Some(t) => Success(t)
    case None => Failure(NoSuchNamespace)
  }

  /** The Namespace setter: current_key is assigned before the lookup, so it takes the
      new name even when the lookup throws; the cursor's table moves only on success. */
  function Select(s: Store, name: string): (r: Store)
    requires WellFormed(s)
    ensures WellFormed(r)
  {
    if Assoc.HasKey(s.spaces, name) then s.(currentKey := name, cursorTable := name)
    else s.(currentKey := name)
  }

  /** What the Namespace setter reports: nothing, or the exception getNamespace throws. */
  function SelectOutcome(s: Store, name: string): Outcome<Error>
  {
    if Assoc.HasKey(s.spaces, name) then Pass else Fail(NoSuchNamespace)
  }

  /** A header line: a new empty table stored under name (replacing any table of that
      name), and both cursor fields on it. */
  function Open(s: Store, name: string): (r: Store)
    requires WellFormed(s)
    ensures WellFormed(r)
  {
    WithTableWellFormed(s, name, [], name);
    Store(Assoc.Put(s.spaces, name, []), name, name)
  }

  /** this[key] = value: set the key in the cursor's table. */
  function Assign(s: Store, key: string, value: string): (r: Store)
    requires WellFormed(s)
    ensures WellFormed(r)
  {
    Assoc.PutDistinct(CursorTable(s), key, value);
    WithTableWellFormed(s, s.cursorTable, Assoc.Put(CursorTable(s), key, value), s.cursorTable);
    WithTable(s, s.cursorTable, Assoc.Put(CursorTable(s), key, value))
  }

  /** Add on the table stored under name: no such namespace, a duplicate key, or the
      pair appended to that table. */
  function AddKey(s: Store, name: string, key: string, value: string): (r: Result<Store, Error>)
    requires WellFormed(s)
    ensures r.Success? ==> WellFormed(r.value)
  {
    match TableNamed(s, name)
    case Failure(e) => Failure(e)
    case Success(t) =>
      if Assoc.HasKey(t, key) then Failure(DuplicateKey)
      else
        Assoc.PutDistinct(t, key, value);
        WithTableWellFormed(s, name, t + [(key, value)], s.cursorTable);
        Success(WithTable(s, name, t + [(key, value)]))
  }

  /** Remove on the table stored under name. */
  function RemoveKey(s: Store, name: string, key: string): (r: Result<Store, Error>)
    requires WellFormed(s)
    ensures r.Success? ==> WellFormed(r.value)
  {
    match TableNamed(s, name)
    case Failure(e) => Failure(e)
    case Success(t) =>
      Assoc.RemoveDistinct(t, key);
      WithTableWellFormed(s, name, Assoc.Remove(t, key), s.cursorTable);
      Success(WithTable(s, name, Assoc.Remove(t, key)))
  }

  /** Clear on the table stored under name. */
  function ClearNamespace(s: Store, name: string): (r: Result<Store, Error>)
    requires WellFormed(s)
    ensures r.Success? ==> WellFormed(r.value)
  {
    match TableNamed(s, name)
    case Failure(e) => Failure(e)
    case Success(t) =>
      WithTableWellFormed(s, name, [], s.cursorTable);
      Success(WithTable(s, name, []))
  }

  /** Writing a table under a stored name replaces just that table. */
  lemma {:induction false} TableNamedWith(s: Store, name: string, t: Table, n: string)
    ensures TableNamed(WithTable(s, name, t), n) == if n == name then Success(t) else TableNamed(s, n)
  {
    Assoc.LookupPut(s.spaces, name, t, n);
  }

  /** The operations without a namespace argument act on the table getNamespace would
      return for the cursor's stored name. */
  lemma {:induction false} TableNamedCursor(s: Store)
    requires WellFormed(s)
    ensures TableNamed(s, s.cursorTable) == Success(CursorTable(s))
  {
  }

  /** The setter always changes the reported name. On success the cursor's table is the
      one stored under the name; on failure it stays where it was, so the reported name
      is then not the name of the table the operations act on. */
  lemma {:induction false} SelectCases(s: Store, name: string)
    requires WellFormed(s)
    ensures var r := Select(s, name);
            && r.spaces == s.spaces && r.currentKey == name
            && (SelectOutcome(s, name) == Pass <==> TableNamed(s, name).Success?)
            && (TableNamed(s, name).Success? ==> r.cursorTable == name && TableNamed(s, name) == Success(CursorTable(r)))
            && (TableNamed(s, name).Failure? ==>
                  r.cursorTable == s.cursorTable && CursorTable(r) == CursorTable(s) && r.currentKey != r.cursorTable)
  {
    var r := Select(s, name);
    if !Assoc.HasKey(s.spaces, name) {
      assert Assoc.HasKey(s.spaces, s.cursorTable);
    }
    Assoc.LookupHasKey(r.spaces, r.cursorTable);
  }

  /** Selecting a name twice is the same as selecting it once. */
  lemma {:induction false} SelectTwice(s: Store, name: string)
    requires WellFormed(s)
    ensures Select(Select(s, name), name) == Select(s, name)
    ensures SelectOutcome(Select(s, name), name) == SelectOutcome(s, name)
  {
    SelectCases(s, name);
  }

  /** The indexer's set: the key then maps to the value, every other key of the cursor's
      table keeps its value, the table grows by one exactly when the key was new, and
      the cursor and every other namespace are unchanged. */
  lemma {:induction false} AssignCases(s: Store, key: string, value: string)
    requires WellFormed(s)
    ensures var r := Assign(s, key, value);
            && r.currentKey == s.currentKey && r.cursorTable == s.cursorTable
            && (forall k :: Assoc.Lookup(CursorTable(r), k) == if k == key then Some(value) else Assoc.Lookup(CursorTable(s), k))
            && |CursorTable(r)| == (if Assoc.HasKey(CursorTable(s), key) then |CursorTable(s)| else |CursorTable(s)| + 1)
            && forall n :: n != s.cursorTable ==> TableNamed(r, n) == TableNamed(s, n)
  {
    var t := Assoc.Put(CursorTable(s), key, value);
    TableNamedWith(s, s.cursorTable, t, s.cursorTable);
    forall n | n != s.cursorTable ensures TableNamed(Assign(s, key, value), n) == TableNamed(s, n) {
      TableNamedWith(s, s.cursorTable, t, n);
    }
    forall k ensures Assoc.Lookup(t, k) == if k == key then Some(value) else Assoc.Lookup(CursorTable(s), k) {
      Assoc.LookupPut(CursorTable(s), key, value, k);
    }
    Assoc.KeysOfPut(CursorTable(s), key, value);
    assert |Assoc.KeysOf(t)| == |t|;
  }

  /** Setting a key twice keeps only the second value. */
  lemma {:induction false} AssignTwice(s: Store, key: string, v: string, w: string)
    requires WellFormed(s)
    ensures Assign(Assign(s, key, v), key, w) == Assign(s, key, w)
  {
    var t := CursorTable(s);
    var r := Assign(s, key, v);
    TableNamedWith(s, s.cursorTable, Assoc.Put(t, key, v), s.cursorTable);
    assert CursorTable(r) == Assoc.Put(t, key, v);
    Assoc.PutPut(t, key, v, w);
    Assoc.PutPut(s.spaces, s.cursorTable, Assoc.Put(t, key, v), Assoc.Put(t, key, w));
  }

  /** Add on a namespace: it fails with NoSuchNamespace when there is no such namespace,
      with DuplicateKey when the key is already there, and otherwise appends the pair to
      that table alone, leaving the cursor and the other namespaces as they were. */
  lemma {:induction false} AddKeyCases(s: Store, name: string, key: string, value: string)
    requires WellFormed(s)
    ensures var r := AddKey(s, name, key, value);
            && (TableNamed(s, name).Failure? ==> r == Failure(NoSuchNamespace))
            && (TableNamed(s, name).Success? && Assoc.HasKey(TableNamed(s, name).value, key) ==> r == Failure(DuplicateKey))
            && (TableNamed(s, name).Success? && !Assoc.HasKey(TableNamed(s, name).value, key) ==>
                  && r.Success?
                  && TableNamed(r.value, name) == Success(TableNamed(s, name).value + [(key, value)])
                  && r.value.currentKey == s.currentKey && r.value.cursorTable == s.cursorTable
                  && forall n :: n != name ==> TableNamed(r.value, n) == TableNamed(s, n))
  {
    if TableNamed(s, name).Success? {
      var t := TableNamed(s, name).value;
      forall n ensures TableNamed(WithTable(s, name, t + [(key, value)]), n)
                       == if n == name then Success(t + [(key, value)]) else TableNamed(s, n) {
        TableNamedWith(s, name, t + [(key, value)], n);
      }
    }
  }

  /** Add and the indexer agree on a key that is new to the cursor's table; on a key
      already there, Add fails where the indexer overwrites. */
  lemma {:induction false} AddIsAssign(s: Store, key: string, value: string)
    requires WellFormed(s)
    ensures !Assoc.HasKey(CursorTable(s), key) ==> AddKey(s, s.cursorTable, key, value) == Success(Assign(s, key, value))
    ensures Assoc.HasKey(CursorTable(s), key) ==> AddKey(s, s.cursorTable, key, value) == Failure(DuplicateKey)
  {
    TableNamedCursor(s);
  }

  /** Remove on a namespace: it fails only when there is no such namespace; otherwise the
      key is gone, every other key keeps its value, the table shrinks by one exactly when
      the key was there, the table is unchanged when the key was absent and otherwise is
      the table with the key's entry unlinked and the other pairs in their order, and the
      cursor and the other namespaces are unchanged. */
  lemma {:induction false} RemoveKeyCases(s: Store, name: string, key: string)
    requires WellFormed(s)
    ensures var r := RemoveKey(s, name, key);
            && (r.Failure? <==> TableNamed(s, name).Failure?)
            && (r.Failure? ==> r.error == NoSuchNamespace)
            && (r.Success? ==>
                  && TableNamed(r.value, name).Success?
                  && var t, u := TableNamed(s, name).value, TableNamed(r.value, name).value;
                  && !Assoc.HasKey(u, key)
                  && (!Assoc.HasKey(t, key) ==> u == t)
                  && (forall a, v, b :: t == a + [(key, v)] + b && !Assoc.HasKey(a, key) ==> u == a + b)
                  && (forall k :: Assoc.Lookup(u, k) == if k == key then None else Assoc.Lookup(t, k))
                  && |u| == (if Assoc.HasKey(t, key) then |t| - 1 else |t|)
                  && r.value.currentKey == s.currentKey && r.value.cursorTable == s.cursorTable
                  && forall n :: n != name ==> TableNamed(r.value, n) == TableNamed(s, n))
  {
    if TableNamed(s, name).Success? {
      var t := TableNamed(s, name).value;
      var u := Assoc.Remove(t, key);
      forall n ensures TableNamed(WithTable(s, name, u), n) == if n == name then Success(u) else TableNamed(s, n) {
        TableNamedWith(s, name, u, n);
      }
      forall k ensures Assoc.Lookup(u, k) == if k == key then None else Assoc.Lookup(t, k) {
        Assoc.LookupRemove(t, key, k);
      }
      Assoc.RemoveDistinct(t, key);
      Assoc.RemoveThenAbsent(t, key);
      if !Assoc.HasKey(t, key) {
        Assoc.RemoveAbsent(t, key);
      }
      forall a, v, b | t == a + [(key, v)] + b && !Assoc.HasKey(a, key) ensures u == a + b {
        Assoc.RemoveMiddle(a, key, v, b);
      }
    }
  }

  /** Removing a key just added restores the store. */
  lemma {:induction false} AddThenRemove(s: Store, name: string, key: string, value: string)
    requires WellFormed(s) && AddKey(s, name, key, value).Success?
    ensures RemoveKey(AddKey(s, name, key, value).value, name, key) == Success(s)
  {
    var t := TableNamed(s, name).value;
    var r := AddKey(s, name, key, value).value;
    TableNamedWith(s, name, t + [(key, value)], name);
    Assoc.RemoveAppended(t, key, value);
    Assoc.LookupHasKey(s.spaces, name);
    Assoc.PutPut(s.spaces, name, t + [(key, value)], t);
    Assoc.PutSame(s.spaces, name);
  }

  /** Clear on a namespace: it fails only when there is no such namespace; otherwise
      that table is empty, and the cursor and the other namespaces are unchanged. */
  lemma {:induction false} ClearCases(s: Store, name: string)
    requires WellFormed(s)
    ensures var r := ClearNamespace(s, name);
            && (r.Failure? <==> TableNamed(s, name).Failure?)
            && (r.Failure? ==> r.error == NoSuchNamespace)
            && (r.Success? ==>
                  && TableNamed(r.value, name) == Success([])
                  && r.value.currentKey == s.currentKey && r.value.cursorTable == s.cursorTable
                  && forall n :: n != name ==> TableNamed(r.value, n) == TableNamed(s, n))
  {
    if TableNamed(s, name).Success? {
      forall n ensures TableNamed(WithTable(s, name, []), n) == if n == name then Success([]) else TableNamed(s, n) {
        TableNamedWith(s, name, [], n);
      }
    }
  }

  /** Clearing twice is the same as clearing once. */
  lemma {:induction false} ClearTwice(s: Store, name: string)
    requires WellFormed(s) && ClearNamespace(s, name).Success?
    ensures ClearNamespace(ClearNamespace(s, name).value, name) == ClearNamespace(s, name)
  {
    var r := ClearNamespace(s, name).value;
    TableNamedWith(s, name, [], name);
    Assoc.LookupHasKey(s.spaces, name);
    Assoc.PutPut(s.spaces, name, [], []);
  }

  /** The divergence after a failed select: the reported namespace does not exist, yet
      the indexer still writes, into the table that was selected before. */
  lemma {:induction false} FailedSelectWritesOldTable(s: Store, name: string, key: string, value: string)
    requires WellFormed(s) && !Assoc.HasKey(s.spaces, name)
    ensures var r := Assign(Select(s, name), key, value);
            && r.currentKey == name
            && TableNamed(r, name) == Failure(NoSuchNamespace)
            && TableNamed(r, s.cursorTable) == Success(Assoc.Put(CursorTable(s), key, value))
  {
    var m := Select(s, name);
    SelectCases(s, name);
    TableNamedWith(m, s.cursorTable, Assoc.Put(CursorTable(s), key, value), name);
    TableNamedWith(m, s.cursorTable, Assoc.Put(CursorTable(s), key, value), s.cursorTable);
  }
}
