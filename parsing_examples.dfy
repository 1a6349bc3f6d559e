/** Concrete lines and a concrete file, worked through the parser as written. */
module ParsingExamples {
  import opened Text
  import opened Stores
  import opened Parsing

  /** "[db]" names the namespace "db]": only the opening bracket is dropped. */
  lemma {:induction false} HeaderKeepsBracket(line: string)
    requires line == "[db]"
    ensures Classify(line) == Header("db]")
  {
    assert line == NamespaceStart + "db" + NamespaceClose;
    HeaderLine("db");
  }

  /** "x = a=b" stores "a" under "x": the value ends at the second '='. */
  lemma {:induction false} ValueStopsAtSecondEquals(line: string)
    requires line == "x = a=b"
    ensures Classify(line) == Pair("x", "a")
  {
    assert line == "x" + " " + [EqualsSign] + " " + "a" + "=b";
    PairLine("x", " ", " ", "a", "=b");
  }

  /** "a=1" stores "1" under "a". */
  lemma {:induction false} SimplePair(line: string)
    requires line == "a=1"
    ensures Classify(line) == Pair("a", "1")
  {
    assert line == "a" + "" + [EqualsSign] + "" + "1" + "";
    PairLine("a", "", "", "1", "");
  }

  /** "host = localhost" stores "localhost" under "host". */
  lemma {:induction false} SpacedPair(line: string)
    requires line == "host = localhost"
    ensures Classify(line) == Pair("host", "localhost")
  {
    assert line == "host" + " " + [EqualsSign] + " " + "localhost" + "";
    PairLine("host", " ", " ", "localhost", "");
  }

  /** "port=5432 # default port" stores "5432": the inline comment is cut first. */
  lemma {:induction false} InlineCommentCut(raw: string)
    requires raw == "port=5432 # default port"
    ensures Classify(raw) == Pair("port", "5432")
  {
    assert raw == "port=5432 " + [CommentCharacter] + " default port";
    InlineComment(raw, "port=5432 ", " default port");
    PortBeforeComment("port=5432 ");
    PortPair("port=5432");
  }

  /** The text before the '#' of the port line, trimmed. */
  lemma {:induction false} PortBeforeComment(before: string)
    requires before == "port=5432 "
    ensures Trim(before) == "port=5432"
  {
    assert before == "" + "port=5432" + " ";
    TrimAround("", "port=5432", " ");
  }

  /** The port line once its comment is cut. */
  lemma {:induction false} PortPair(line: string)
    requires line == "port=5432"
    ensures Classify(line) == Pair("port", "5432")
  {
    assert line == "port" + "" + [EqualsSign] + "" + "5432" + "";
    PairLine("port", "", "", "5432", "");
  }

  /** The sample file: "a=1" lands in "_default_", and the header "[db]" opens the
      namespace "db]" (not "db"), holding host and port in file order. */
  lemma {:induction false} SampleFile(lines: seq<string>)
    requires lines == ["a=1", "[db]", "host = localhost", "port=5432 # default port"]
    ensures Parse(lines)
         == Store([(DefaultNamespace, [("a", "1")]), ("db]", [("host", "localhost"), ("port", "5432")])],
                  "db]", "db]")
  {
    assert lines == [] + [lines[0]] + [lines[1]] + [lines[2]] + [lines[3]];
    assert Parse([]) == Initial();
    ParseSnoc([], lines[0]);
    SampleA(Initial(), lines[0]);
    ParseSnoc([lines[0]], lines[1]);
    SampleDb(Parse([lines[0]]), lines[1]);
    ParseSnoc([lines[0]] + [lines[1]], lines[2]);
    SampleHost(Parse([lines[0]] + [lines[1]]), lines[2]);
    ParseSnoc([lines[0]] + [lines[1]] + [lines[2]], lines[3]);
    SamplePort(Parse([lines[0]] + [lines[1]] + [lines[2]]), lines[3]);
  }

  /** Line 1 of the sample: "a=1" into the empty "_default_" table. */
  lemma {:induction false} SampleA(s: Store, raw: string)
    requires s == Initial() && raw == "a=1"
    ensures Step(s, raw) == Store([(DefaultNamespace, [("a", "1")])], DefaultNamespace, DefaultNamespace)
  {
    var empty: Table := [];
    assert s.spaces == [(DefaultNamespace, empty)] && s.cursorTable == DefaultNamespace;
    SimplePair(raw);
    Assoc.FindFirst(s.spaces, DefaultNamespace, 0);
    PairStep(s, raw, 0);
    assert Assoc.Find(empty, "a") == -1;
    assert Assoc.Put(empty, "a", "1") == [("a", "1")];
  }

  /** Line 2 of the sample: the header "[db]" appends the namespace "db]". */
  lemma {:induction false} SampleDb(s: Store, raw: string)
    requires s == Store([(DefaultNamespace, [("a", "1")])], DefaultNamespace, DefaultNamespace)
    requires raw == "[db]"
    ensures WellFormed(s)
    ensures Step(s, raw) == Store([(DefaultNamespace, [("a", "1")]), ("db]", [])], "db]", "db]")
  {
    assert s.spaces[0].0 == s.cursorTable;
    HeaderKeepsBracket(raw);
    assert DefaultNamespace[0] != "db]"[0];
  }

  /** Line 3 of the sample: "host = localhost" into "db]". */
  lemma {:induction false} SampleHost(s: Store, raw: string)
    requires s == Store([(DefaultNamespace, [("a", "1")]), ("db]", [])], "db]", "db]")
    requires raw == "host = localhost"
    ensures WellFormed(s)
    ensures Step(s, raw) == Store([(DefaultNamespace, [("a", "1")]), ("db]", [("host", "localhost")])], "db]", "db]")
  {
    assert DefaultNamespace[0] != "db]"[0];
    Assoc.FindFirst(s.spaces, "db]", 1);
    SpacedPair(raw);
    AppendStep(s, raw, 1, "host", "localhost");
    var t: Table := [("host", "localhost")];
    assert s.spaces[1].1 + [("host", "localhost")] == t;
    assert s.spaces[1 := ("db]", t)] == [(DefaultNamespace, [("a", "1")]), ("db]", t)];
  }

  /** Line 4 of the sample: "port=5432 # default port" into "db]", after "host". */
  lemma {:induction false} SamplePort(s: Store, raw: string)
    requires s == Store([(DefaultNamespace, [("a", "1")]), ("db]", [("host", "localhost")])], "db]", "db]")
    requires raw == "port=5432 # default port"
    ensures WellFormed(s)
    ensures Step(s, raw)
         == Store([(DefaultNamespace, [("a", "1")]), ("db]", [("host", "localhost"), ("port", "5432")])],
                  "db]", "db]")
  {
    assert DefaultNamespace[0] != "db]"[0];
    assert "host"[0] != "port"[0];
    Assoc.FindFirst(s.spaces, "db]", 1);
    InlineCommentCut(raw);
    AppendStep(s, raw, 1, "port", "5432");
    var t: Table := [("host", "localhost"), ("port", "5432")];
    assert s.spaces[1].1 + [("port", "5432")] == t;
    assert s.spaces[1 := ("db]", t)] == [(DefaultNamespace, [("a", "1")]), ("db]", t)];
  }

  /** A pair step with a key new to the cursor's table, which sits at position i:
      the pair is appended to that table. */
  lemma {:induction false} AppendStep(s: Store, raw: string, i: nat, key: string, value: string)
    requires i < |s.spaces| && Assoc.Find(s.spaces, s.cursorTable) == i
    requires WellFormed(s) && Classify(raw) == Pair(key, value)
    requires !Assoc.HasKey(s.spaces[i].1, key)
    ensures Step(s, raw) == s.(spaces := s.spaces[i := (s.cursorTable, s.spaces[i].1 + [(key, value)])])
  {
  }

  /** A pair step on a store whose cursor table sits at position i. */
  lemma {:induction false} PairStep(s: Store, raw: string, i: nat)
    requires i < |s.spaces| && Assoc.Find(s.spaces, s.cursorTable) == i
    requires Assoc.DistinctKeys(s.spaces[i].1)
    requires WellFormed(s) && Classify(raw).Pair?
    ensures Step(s, raw)
         == s.(spaces := s.spaces[i := (s.cursorTable, Assoc.Put(s.spaces[i].1, Classify(raw).key, Classify(raw).value))])
  {
  }
}
