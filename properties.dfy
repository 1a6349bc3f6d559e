/** ilude.Properties: a dictionary of namespaces, each an insertion-ordered table of
    string keys and values, with a cursor on one namespace that the operations without
    a namespace argument act on. */
module Ilude {
  import opened Wrappers
  import opened Text
  import Assoc
  import opened Stores
  import opened Parsing

  class Properties {
    /** namespaces: namespace name to table, in insertion order. */
    var namespaces: seq<(string, Table)>
    /** current_key: the name the Namespace getter reports. */
    var currentKey: string
    /** current_namespace, by the name it is stored under in namespaces: the table
        object current_namespace refers to is always the one stored under this name. */
    var currentNamespace: string

    /** The object's state as a Store value. */
    function View(): Store
      reads this
    {
      Store(namespaces, currentKey, currentNamespace)
    }

    ghost predicate Valid()
      reads this
    {
      WellFormed(View())
    }

    /** The table current_namespace refers to. */
    function CurrentTable(): (t: Table)
      reads this
      requires Valid()
      ensures (currentNamespace, t) in namespaces
      ensures TableNamed(View(), currentNamespace) == Success(t)
    {
      TableNamedCursor(View());
      CursorTable(View())
    }

    /** Init: one empty table stored as "_default_", with both cursor fields on it. */
    method Init()
      modifies this
      ensures Valid() && View() == Initial()
    {
      currentKey := DefaultNamespace;
      currentNamespace := currentKey;
      namespaces := [];
      assert Assoc.Find(namespaces, currentKey) == -1;
      namespaces := Assoc.Put(namespaces, currentKey, []);
      assert namespaces == [(DefaultNamespace, [])];
      assert View() == Initial();
    }

    /** Properties(): the initial store. */
    constructor ()
      ensures Valid() && View() == Initial()
    {
      new;
      Init();
    }

    /** Properties(filename), on the lines the file holds: the store Parse describes. */
    constructor FromLines(lines: seq<string>)
      ensures Valid() && View() == Parse(lines)
    {
      new;
      Init();
      var n := 0;
      while n < |lines|
        invariant n <= |lines|
        invariant Valid() && View() == Parse(lines[..n])
      {
        assert lines[..n + 1] == lines[..n] + [lines[n]];
        ParseSnoc(lines[..n], lines[n]);
        ReadLine(lines[n]);
        n := n + 1;
      }
      assert lines[..n] == lines;
    }

    /** The body of the constructor's loop, on one line read from the file. */
    method ReadLine(raw: string)
      requires Valid()
      modifies this
      ensures Valid() && View() == Step(old(View()), raw)
    {
      var line := Trim(raw);
      if StartsWith(line, [CommentCharacter]) {
        UncommentedShape(raw);
        StepOfOther(View(), raw);
        return;
      } else if IndexOf(line, CommentCharacter) > 0 {
        line := Trim(line[..IndexOf(line, CommentCharacter)]);
      }
      assert Uncommented(raw) == Some(line);
      if StartsWith(line, NamespaceStart) && EndsWith(line, NamespaceClose) {
        StepOfHeader(View(), raw, line);
        currentKey := line[1..];
        currentNamespace := currentKey;
        namespaces := Assoc.Put(namespaces, currentKey, []);
        assert View() == Open(old(View()), line[1..]);
      } else if IndexOf(line, EqualsSign) > 0 {
        var values := Split(line, EqualsSign);
        StepOfPair(View(), raw, line);
        Set(Trim(values[0]), Trim(values[1]));
      } else {
        StepOfOther(View(), raw);
      }
    }

    /** The Namespace getter. */
    function Namespace(): (name: string)
      reads this
      ensures name == View().currentKey
    {
      currentKey
    }

    /** The Namespace setter: current_key is assigned first, then getNamespace either
        moves current_namespace or throws; the outcome is that exception, if any. */
    method SetNamespace(name: string) returns (outcome: Outcome<Error>)
      requires Valid()
      modifies this
      ensures Valid()
      ensures View() == Select(old(View()), name)
      ensures outcome == SelectOutcome(old(View()), name)
    {
      currentKey := name;
      var found := GetNamespace(name);
      match found
      case Success(_) =>
        currentNamespace := name;
        outcome := Pass;
      case Failure(e) =>
        outcome := Fail(e);
    }

    /** getNamespace: the table stored under name, or "No such namespace". */
    method GetNamespace(name: string) returns (r: Result<Table, Error>)
      ensures r.Success? <==> Assoc.HasKey(namespaces, name)
      ensures r.Success? ==> Assoc.Lookup(namespaces, name) == Some(r.value)
      ensures r.Failure? ==> r.error == NoSuchNamespace
    {
      Assoc.LookupHasKey(namespaces, name);
      var i := Assoc.Find(namespaces, name);
      if i < 0 {
        r := Failure(NoSuchNamespace);
      } else {
        r := Success(namespaces[i].1);
      }
    }

    /** this[key] get: the value under key in the current table, or null. */
    method Get(key: string) returns (value: Option<string>)
      requires Valid()
      ensures value.Some? <==> Assoc.HasKey(CurrentTable(), key)
      ensures value.Some? ==> (key, value.value) in CurrentTable()
    {
      Assoc.LookupHasKey(CurrentTable(), key);
      value := Assoc.Lookup(CurrentTable(), key);
    }

    /** this[key] = value, on the current table. */
    method Set(key: string, value: string)
      requires Valid()
      modifies this
      ensures Valid()
      ensures View() == Assign(old(View()), key, value)
    {
      namespaces := Assoc.Put(namespaces, currentNamespace, Assoc.Put(CurrentTable(), key, value));
      assert View() == Assign(old(View()), key, value);
    }

    /** Add(key, value) on the current table. */
    method Add(key: string, value: string) returns (outcome: Outcome<Error>)
      requires Valid()
      modifies this
      ensures Valid()
      ensures outcome.Pass? ==> AddKey(old(View()), old(currentNamespace), key, value) == Success(View())
      ensures outcome.Fail? ==> AddKey(old(View()), old(currentNamespace), key, value) == Failure(outcome.error)
                                && View() == old(View())
    {
      var table := CurrentTable();
      AddIsAssign(View(), key, value);
      if Assoc.Find(table, key) >= 0 {
        outcome := Fail(DuplicateKey);
      } else {
        namespaces := Assoc.Put(namespaces, currentNamespace, table + [(key, value)]);
        outcome := Pass;
        assert View() == AddKey(old(View()), old(currentNamespace), key, value).value;
      }
    }

    /** Add(namespace, key, value). */
    method AddIn(name: string, key: string, value: string) returns (outcome: Outcome<Error>)
      requires Valid()
      modifies this
      ensures Valid()
      ensures outcome.Pass? ==> AddKey(old(View()), name, key, value) == Success(View())
      ensures outcome.Fail? ==> AddKey(old(View()), name, key, value) == Failure(outcome.error)
                                && View() == old(View())
    {
      var found := GetNamespace(name);
      match found
      case Failure(e) =>
        outcome := Fail(e);
      case Success(table) =>
        if Assoc.Find(table, key) >= 0 {
          outcome := Fail(DuplicateKey);
        } else {
          namespaces := Assoc.Put(namespaces, name, table + [(key, value)]);
          outcome := Pass;
          assert View() == AddKey(old(View()), name, key, value).value;
        }
    }

    /** Remove(key) on the current table. */
    method Remove(key: string)
      requires Valid()
      modifies this
      ensures Valid()
      ensures RemoveKey(old(View()), old(currentNamespace), key) == Success(View())
    {
      namespaces := Assoc.Put(namespaces, currentNamespace, Assoc.Remove(CurrentTable(), key));
      assert View() == RemoveKey(old(View()), old(currentNamespace), key).value;
    }

    /** Remove(namespace, key). */
    method RemoveIn(name: string, key: string) returns (outcome: Outcome<Error>)
      requires Valid()
      modifies this
      ensures Valid()
      ensures outcome.Pass? ==> RemoveKey(old(View()), name, key) == Success(View())
      ensures outcome.Fail? ==> RemoveKey(old(View()), name, key) == Failure(outcome.error)
                                && View() == old(View())
    {
      var found := GetNamespace(name);
      match found
      case Failure(e) =>
        outcome := Fail(e);
      case Success(table) =>
        namespaces := Assoc.Put(namespaces, name, Assoc.Remove(table, key));
        outcome := Pass;
        assert View() == RemoveKey(old(View()), name, key).value;
    }

    /** Clear() on the current table. */
    method Clear()
      requires Valid()
      modifies this
      ensures Valid()
      ensures ClearNamespace(old(View()), old(currentNamespace)) == Success(View())
    {
      namespaces := Assoc.Put(namespaces, currentNamespace, []);
      assert View() == ClearNamespace(old(View()), old(currentNamespace)).value;
    }

    /** Clear(namespace). */
    method ClearIn(name: string) returns (outcome: Outcome<Error>)
      requires Valid()
      modifies this
      ensures Valid()
      ensures outcome.Pass? ==> ClearNamespace(old(View()), name) == Success(View())
      ensures outcome.Fail? ==> ClearNamespace(old(View()), name) == Failure(outcome.error)
                                && View() == old(View())
    {
      var found := GetNamespace(name);
      match found
      case Failure(e) =>
        outcome := Fail(e);
      case Success(_) =>
        namespaces := Assoc.Put(namespaces, name, []);
        outcome := Pass;
        assert View() == ClearNamespace(old(View()), name).value;
    }

    /** Contains(key) on the current table. */
    method Contains(key: string) returns (present: bool)
      requires Valid()
      ensures present <==> Assoc.HasKey(CurrentTable(), key)
    {
      present := Assoc.Find(CurrentTable(), key) >= 0;
    }

    /** Contains(namespace, key). */
    method ContainsIn(name: string, key: string) returns (r: Result<bool, Error>)
      ensures r.Failure? <==> !Assoc.HasKey(namespaces, name)
      ensures r.Failure? ==> r.error == NoSuchNamespace
      ensures r.Success? ==> (r.value <==> Assoc.HasKey(TableNamed(View(), name).value, key))
    {
      var found := GetNamespace(name);
      match found
      case Failure(e) =>
        r := Failure(e);
      case Success(table) =>
        r := Success(Assoc.Find(table, key) >= 0);
    }

    /** Count: the number of pairs in the current table. */
    method Count() returns (n: nat)
      requires Valid()
      ensures n == |CurrentTable()|
    {
      n := |CurrentTable()|;
    }

    /** Keys: the current table's keys, in insertion order. */
    method Keys() returns (keys: seq<string>)
      requires Valid()
      ensures |keys| == |CurrentTable()|
      ensures forall i :: 0 <= i < |keys| ==> keys[i] == CurrentTable()[i].0
    {
      keys := Assoc.KeysOf(CurrentTable());
    }

    /** Values: the current table's values, in the order of Keys. */
    method Values() returns (values: seq<string>)
      requires Valid()
      ensures |values| == |CurrentTable()|
      ensures forall i :: 0 <= i < |values| ==> values[i] == CurrentTable()[i].1
    {
      values := Assoc.ValuesOf(CurrentTable());
    }

    /** GetEnumerator(): the pairs of the current table, in insertion order. */
    method GetEnumerator() returns (items: seq<(string, string)>)
      requires Valid()
      ensures items == CursorTable(View())
    {
      items := CurrentTable();
    }

    /** GetEnumerator(namespace). */
    method GetEnumeratorIn(name: string) returns (r: Result<seq<(string, string)>, Error>)
      ensures r == TableNamed(View(), name)
    {
      r := GetNamespace(name);
    }
  }
}
