/** The line format read by the Properties(filename) constructor, and the store it builds,
    as values: one pure Step per line. The class in properties.dfy is proved to follow it. */
module Parsing {
  import opened Wrappers
  import opened Text
  import opened Stores
  import Assoc

  const CommentCharacter: char := '#'
  const NamespaceStart: string := "["
  const NamespaceClose: string := "]"
  const EqualsSign: char := '='

  /** What one line of the file is taken to be. */
  datatype LineKind = Comment | Header(name: string) | Pair(key: string, value: string) | Ignored

  /** The line trimmed and cut at an inline comment marker; None for a comment line. */
  function Uncommented(raw: string): Option<string>
  {
    var line := Trim(raw);
    if StartsWith(line, [CommentCharacter]) then None
    else if IndexOf(line, CommentCharacter) > 0 then Some(Trim(line[..IndexOf(line, CommentCharacter)]))
    else Some(line)
  }

  /** The classification of one raw line, test by test. */
  function Classify(raw: string): LineKind
  {
    match Uncommented(raw)
    case None => Comment
    case Some(line) =>
      if StartsWith(line, NamespaceStart) && EndsWith(line, NamespaceClose) then Header(line[1..])
      else if IndexOf(line, EqualsSign) > 0 then
        var values := Split(line, EqualsSign);
        Pair(Trim(values[0]), Trim(values[1]))
      else Ignored
  }

  /** A stored key/value pair as the parser can produce it. */
  predicate CleanEntry(e: (string, string))
  {
    e.0 != [] && CommentCharacter !in e.0 && EqualsSign !in e.0
    && CommentCharacter !in e.1 && EqualsSign !in e.1
  }

  /** A comment line is exactly one whose trimmed text starts with '#'; any other line
      reaches classification trimmed and without '#'. */
  lemma {:induction false} UncommentedShape(raw: string)
    ensures Uncommented(raw).None? <==> StartsWith(Trim(raw), [CommentCharacter])
    ensures Uncommented(raw).Some? ==>
              var line := Uncommented(raw).value;
              && CommentCharacter !in line
              && (line != [] ==> !IsWhitespace(line[0]) && !IsWhitespace(line[|line| - 1]))
  {
    var line := Trim(raw);
    if !StartsWith(line, [CommentCharacter]) {
      var i := IndexOf(line, CommentCharacter);
      if i > 0 {
        TrimSubset(line[..i], CommentCharacter);
      } else {
        assert i != 0;
      }
    }
  }

  /** The name a header line "[...]" gives: non-empty, ending with ']', and without '#'
      when the line has none. */
  lemma {:induction false} HeaderName(line: string)
    requires StartsWith(line, NamespaceStart) && EndsWith(line, NamespaceClose)
    requires CommentCharacter !in line
    ensures var name := line[1..];
            name != [] && name[|name| - 1] == ']' && CommentCharacter !in name
  {
    assert line[|line| - 1] == ']';
    assert line[1..][|line| - 2] == line[|line| - 1];
  }

  /** The pair a "key = value" line gives is clean when the line has no '#' and does
      not start with whitespace. */
  lemma {:induction false} PairClean(line: string)
    requires CommentCharacter !in line && line != [] && !IsWhitespace(line[0])
    requires IndexOf(line, EqualsSign) > 0
    ensures var values := Split(line, EqualsSign);
            |values| >= 2 && CleanEntry((Trim(values[0]), Trim(values[1])))
  {
    var i := IndexOf(line, EqualsSign);
    SplitFirstTwo(line, EqualsSign);
    var values := Split(line, EqualsSign);
    assert values[0] == line[..i];
    assert values[0][0] == line[0];
    TrimKeepsFirst(values[0]);
    TrimSubset(values[0], EqualsSign);
    TrimSubset(values[1], EqualsSign);
    assert CommentCharacter !in values[1] by {
      assert forall c :: c in values[1] ==> c in line;
    }
    TrimSubset(values[0], CommentCharacter);
    TrimSubset(values[1], CommentCharacter);
  }

  /** The pair of a "key = value" line comes from the first two pieces of its split. */
  lemma {:induction false} ClassifyPairValues(raw: string, line: string)
    requires Uncommented(raw) == Some(line)
    requires !(StartsWith(line, NamespaceStart) && EndsWith(line, NamespaceClose))
    requires IndexOf(line, EqualsSign) > 0
    ensures var values := Split(line, EqualsSign);
            |values| >= 2 && Classify(raw) == Pair(Trim(values[0]), Trim(values[1]))
  {
  }

  /** Header names end with ']' and hold no '#'; pairs have a non-empty key and neither
      key nor value holds '#' or '='. */
  lemma {:induction false} ClassifyClean(raw: string)
    ensures Classify(raw).Header? ==>
              var name := Classify(raw).name;
              name != [] && name[|name| - 1] == ']' && CommentCharacter !in name
    ensures Classify(raw).Pair? ==> CleanEntry((Classify(raw).key, Classify(raw).value))
  {
    UncommentedShape(raw);
    if Uncommented(raw).Some? {
      var line := Uncommented(raw).value;
      if StartsWith(line, NamespaceStart) && EndsWith(line, NamespaceClose) {
        HeaderName(line);
        ClassifyHeader(raw, line);
      } else if IndexOf(line, EqualsSign) > 0 {
        PairClean(line);
        ClassifyPairValues(raw, line);
      }
    }
  }

  /** A line that is already trimmed and has no '#' reaches classification as it is. */
  lemma {:induction false} UncommentedClean(line: string)
    requires Trim(line) == line && CommentCharacter !in line
    ensures Uncommented(line) == Some(line)
  {
    assert !StartsWith(line, [CommentCharacter]);
  }

  /** A line whose cleaned text is "[...]" is a header named by that text minus its
      first character, so the closing bracket stays in the name. */
  lemma {:induction false} ClassifyHeader(raw: string, line: string)
    requires Uncommented(raw) == Some(line)
    requires StartsWith(line, NamespaceStart) && EndsWith(line, NamespaceClose)
    ensures Classify(raw) == Header(line[1..])
  {
  }

  /** A line whose cleaned text is not a header and has its first '=' past position 0 is
      a pair: the key is the trimmed text before the first '=', the value the trimmed
      text between the first '=' and the second one (or the end of the line). */
  lemma {:induction false} ClassifyPair(raw: string, line: string)
    requires Uncommented(raw) == Some(line)
    requires !(StartsWith(line, NamespaceStart) && EndsWith(line, NamespaceClose))
    requires IndexOf(line, EqualsSign) > 0
    ensures var i := IndexOf(line, EqualsSign);
            var rest := line[i + 1..];
            var j := IndexOf(rest, EqualsSign);
            Classify(raw) == Pair(Trim(line[..i]), Trim(if j < 0 then rest else rest[..j]))
  {
    SplitFirstTwo(line, EqualsSign);
  }

  /** The step of a line whose cleaned text is a header: open that namespace. */
  lemma {:induction false} StepOfHeader(s: Store, raw: string, line: string)
    requires WellFormed(s) && Uncommented(raw) == Some(line)
    requires StartsWith(line, NamespaceStart) && EndsWith(line, NamespaceClose)
    ensures Step(s, raw) == Open(s, line[1..])
  {
    ClassifyHeader(raw, line);
  }

  /** The step of a line whose cleaned text is a pair line: set the first two pieces of
      its split, trimmed, in the cursor's table. */
  lemma {:induction false} StepOfPair(s: Store, raw: string, line: string)
    requires WellFormed(s) && Uncommented(raw) == Some(line)
    requires !(StartsWith(line, NamespaceStart) && EndsWith(line, NamespaceClose))
    requires IndexOf(line, EqualsSign) > 0
    ensures var values := Split(line, EqualsSign);
            |values| >= 2 && Step(s, raw) == Assign(s, Trim(values[0]), Trim(values[1]))
  {
    ClassifyPairValues(raw, line);
  }

  /** The step of a comment line, or of a line that is neither a header nor a pair
      line, changes nothing. */
  lemma {:induction false} StepOfOther(s: Store, raw: string)
    requires WellFormed(s)
    requires Uncommented(raw).Some? ==>
               var line := Uncommented(raw).value;
               !(StartsWith(line, NamespaceStart) && EndsWith(line, NamespaceClose)) && IndexOf(line, EqualsSign) <= 0
    ensures Step(s, raw) == s
  {
  }

  /** A key or value as it is written in a file: non-empty, without whitespace at its
      ends, and without '=' or '#'. */
  predicate Word(w: string)
  {
    w != [] && !IsWhitespace(w[0]) && !IsWhitespace(w[|w| - 1])
    && EqualsSign !in w && CommentCharacter !in w
  }

  /** Any header line "[inner]" with no '#' is the namespace inner + "]". */
  lemma {:induction false} HeaderLine(inner: string)
    requires CommentCharacter !in inner
    ensures Classify(NamespaceStart + inner + NamespaceClose) == Header(inner + NamespaceClose)
  {
    var line := NamespaceStart + inner + NamespaceClose;
    assert line[0] == '[' && line[|line| - 1] == ']';
    TrimFixed(line);
    UncommentedClean(line);
    assert StartsWith(line, NamespaceStart) && EndsWith(line, NamespaceClose);
    ClassifyHeader(line, line);
    assert line[1..] == inner + NamespaceClose;
  }

  /** A clean line "a=rest" is the pair of trimmed a and the trimmed text of rest before
      any further '='. */
  lemma {:induction false} PairSplit(a: string, rest: string)
    requires a != [] && a[0] != '[' && EqualsSign !in a
    requires Uncommented(a + [EqualsSign] + rest) == Some(a + [EqualsSign] + rest)
    ensures var j := IndexOf(rest, EqualsSign);
            Classify(a + [EqualsSign] + rest) == Pair(Trim(a), Trim(if j < 0 then rest else rest[..j]))
  {
    var line := a + [EqualsSign] + rest;
    assert line[0] == a[0];
    assert !StartsWith(line, NamespaceStart);
    IndexOfAfter(a, EqualsSign, rest);
    assert line[..|a|] == a;
    assert line[|a| + 1..] == rest;
    ClassifyPair(line, line);
  }

  /** The value part "  value=tail" of a pair line reads as value. */
  lemma {:induction false} PairValue(pad2: string, value: string, tail: string)
    requires Blank(pad2) && Word(value)
    requires tail == [] || tail[0] == EqualsSign
    ensures var rest := pad2 + value + tail;
            var j := IndexOf(rest, EqualsSign);
            Trim(if j < 0 then rest else rest[..j]) == value
  {
    var rest := pad2 + value + tail;
    if tail == [] {
      assert EqualsSign !in rest;
      assert rest == pad2 + value + "";
    } else {
      assert rest == (pad2 + value) + [EqualsSign] + tail[1..];
      assert EqualsSign !in pad2 + value;
      IndexOfAfter(pad2 + value, EqualsSign, tail[1..]);
      assert rest[..|pad2 + value|] == pad2 + value + "";
    }
    TrimAround(pad2, value, "");
  }

  /** Any line "key = value" (blanks around '=' optional), possibly followed by a further
      "=..." tail, is the pair (key, value): the tail after the second '=' is dropped. */
  lemma {:induction false} PairLine(key: string, pad1: string, pad2: string, value: string, tail: string)
    requires Word(key) && key[0] != '[' && Blank(pad1) && Blank(pad2) && Word(value)
    requires tail == [] || (tail[0] == EqualsSign && CommentCharacter !in tail && !IsWhitespace(tail[|tail| - 1]))
    ensures Classify(key + pad1 + [EqualsSign] + pad2 + value + tail) == Pair(key, value)
  {
    var a, rest := key + pad1, pad2 + value + tail;
    Regroup(key, pad1, pad2, value, tail);
    PairLineClean(key, pad1, pad2, value, tail);
    KeyPart(key, pad1);
    PairValue(pad2, value, tail);
    PairSplit(a, rest);
  }

  /** The key part and the value part of a pair line, on either side of the first '='. */
  lemma {:induction false} Regroup(key: string, pad1: string, pad2: string, value: string, tail: string)
    ensures key + pad1 + [EqualsSign] + pad2 + value + tail == (key + pad1) + [EqualsSign] + (pad2 + value + tail)
  {
  }

  /** The key part "key  " of a pair line is a non-empty run without '=' that trims to key. */
  lemma {:induction false} KeyPart(key: string, pad1: string)
    requires Word(key) && key[0] != '[' && Blank(pad1)
    ensures var a := key + pad1;
            a != [] && a[0] != '[' && EqualsSign !in a && Trim(a) == key
  {
    assert key + pad1 == "" + key + pad1;
    TrimAround("", key, pad1);
    assert (key + pad1)[0] == key[0];
  }

  /** A pair line of that shape is its own uncommented form. */
  lemma {:induction false} PairLineClean(key: string, pad1: string, pad2: string, value: string, tail: string)
    requires Word(key) && Blank(pad1) && Blank(pad2) && Word(value)
    requires tail == [] || (CommentCharacter !in tail && !IsWhitespace(tail[|tail| - 1]))
    ensures var line := key + pad1 + [EqualsSign] + pad2 + value + tail;
            Uncommented(line) == Some(line)
  {
    var line := key + pad1 + [EqualsSign] + pad2 + value + tail;
    assert line[0] == key[0];
    assert line[|line| - 1] == if tail == [] then value[|value| - 1] else tail[|tail| - 1];
    assert CommentCharacter !in line;
    TrimFixed(line);
    UncommentedClean(line);
  }

  /** A line with an inline comment is classified as the trimmed text before the '#'. */
  lemma {:induction false} InlineComment(raw: string, before: string, after: string)
    requires raw == before + [CommentCharacter] + after
    requires CommentCharacter !in before && before != [] && !IsWhitespace(before[0])
    requires !IsWhitespace(raw[|raw| - 1])
    ensures Classify(raw) == Classify(Trim(before))
  {
    assert raw[0] == before[0];
    TrimFixed(raw);
    IndexOfAfter(before, CommentCharacter, after);
    assert raw[..|before|] == before;
    assert !StartsWith(raw, [CommentCharacter]);
    assert Uncommented(raw) == Some(Trim(before));
    TrimSubset(before, CommentCharacter);
    TrimIdempotent(before);
    UncommentedClean(Trim(before));
  }

  /** A blank or all-whitespace line is ignored. */
  lemma {:induction false} ClassifyBlank(raw: string)
    requires Blank(raw)
    ensures Classify(raw) == Ignored
  {
    TrimEmpty(raw);
  }

  /** One iteration of the constructor's loop. */
  function Step(s: Store, raw: string): (r: Store)
    requires WellFormed(s)
    ensures WellFormed(r)
  {
    match Classify(raw)
    case Header(name) => Open(s, name)
    case Pair(key, value) => Assign(s, key, value)
    case _ => s
  }

  /** The store after the given lines, read in order, starting from s. */
  function ParseFrom(s: Store, lines: seq<string>): (r: Store)
    requires WellFormed(s)
    ensures WellFormed(r)
    decreases |lines|
  {
    if lines == [] then s
    else Step(ParseFrom(s, lines[..|lines| - 1]), lines[|lines| - 1])
  }

  /** The Properties(filename) constructor on a file with these lines. */
  function Parse(lines: seq<string>): (r: Store)
    ensures WellFormed(r)
  {
    ParseFrom(Initial(), lines)
  }

  /** Reading one more line is one more step. */
  lemma {:induction false} ParseSnoc(lines: seq<string>, line: string)
    ensures Parse(lines + [line]) == Step(Parse(lines), line)
  {
    assert (lines + [line])[..|lines + [line]| - 1] == lines;
  }

  /** A header line replaces (or creates) its namespace with an empty table and moves
      both cursor fields to it; no other namespace changes, and the name is never
      "_default_", so parsing never resets the default namespace. */
  lemma {:induction false} StepHeader(s: Store, raw: string)
    requires WellFormed(s) && Classify(raw).Header?
    ensures var name := Classify(raw).name;
            var r := Step(s, raw);
            && name != DefaultNamespace
            && r.currentKey == name && r.cursorTable == name
            && Assoc.Lookup(r.spaces, name) == Some([])
            && forall n :: n != name ==> Assoc.Lookup(r.spaces, n) == Assoc.Lookup(s.spaces, n)
  {
    var name := Classify(raw).name;
    ClassifyClean(raw);
    assert DefaultNamespace[|DefaultNamespace| - 1] == '_';
    forall n ensures Assoc.Lookup(Step(s, raw).spaces, n) == if n == name then Some([]) else Assoc.Lookup(s.spaces, n) {
      Assoc.LookupPut(s.spaces, name, [], n);
    }
  }

  /** A key/value line writes the pair into the cursor's table, overwriting the key's
      old value and leaving its other keys alone; the cursor and every other namespace
      are unchanged. */
  lemma {:induction false} StepPair(s: Store, raw: string)
    requires WellFormed(s) && Classify(raw).Pair?
    ensures var r := Step(s, raw);
            var key, value := Classify(raw).key, Classify(raw).value;
            && r.currentKey == s.currentKey && r.cursorTable == s.cursorTable
            && Assoc.Lookup(CursorTable(r), key) == Some(value)
            && (forall k :: k != key ==> Assoc.Lookup(CursorTable(r), k) == Assoc.Lookup(CursorTable(s), k))
            && forall n :: n != s.cursorTable ==> Assoc.Lookup(r.spaces, n) == Assoc.Lookup(s.spaces, n)
  {
    var key, value := Classify(raw).key, Classify(raw).value;
    var t := Assoc.Put(CursorTable(s), key, value);
    forall n ensures Assoc.Lookup(Step(s, raw).spaces, n) == if n == s.cursorTable then Some(t) else Assoc.Lookup(s.spaces, n) {
      Assoc.LookupPut(s.spaces, s.cursorTable, t, n);
    }
    forall k ensures Assoc.Lookup(t, k) == if k == key then Some(value) else Assoc.Lookup(CursorTable(s), k) {
      Assoc.LookupPut(CursorTable(s), key, value, k);
    }
  }

  /** A comment line and a blank line leave the whole store unchanged. */
  lemma {:induction false} StepUnchanged(s: Store, raw: string)
    requires WellFormed(s)
    requires StartsWith(Trim(raw), [CommentCharacter]) || Blank(raw)
    ensures Step(s, raw) == s
  {
    UncommentedShape(raw);
    if !StartsWith(Trim(raw), [CommentCharacter]) {
      ClassifyBlank(raw);
    }
  }

  /** No namespace name holds '#'; every stored pair is a CleanEntry. */
  predicate Clean(s: Store)
  {
    forall p :: p in s.spaces ==> CommentCharacter !in p.0 && forall e :: e in p.1 ==> CleanEntry(e)
  }

  /** One line keeps a clean store clean. */
  lemma {:induction false} StepClean(s: Store, raw: string)
    requires WellFormed(s) && Clean(s)
    ensures Clean(Step(s, raw))
  {
    ClassifyClean(raw);
  }

  /** Reading any lines from a clean store gives a clean store. */
  lemma {:induction false} ParseFromClean(s: Store, lines: seq<string>)
    requires WellFormed(s) && Clean(s)
    ensures Clean(ParseFrom(s, lines))
    decreases |lines|
  {
    if lines != [] {
      ParseFromClean(s, lines[..|lines| - 1]);
      StepClean(ParseFrom(s, lines[..|lines| - 1]), lines[|lines| - 1]);
    }
  }

  /** Reading lines only adds namespaces: the namespace names before are a prefix of the
      names after, in the same order. */
  lemma {:induction false} ParseFromKeepsNamespaces(s: Store, lines: seq<string>)
    requires WellFormed(s)
    ensures Assoc.KeysOf(s.spaces) <= Assoc.KeysOf(ParseFrom(s, lines).spaces)
    decreases |lines|
  {
    if lines != [] {
      var mid := ParseFrom(s, lines[..|lines| - 1]);
      ParseFromKeepsNamespaces(s, lines[..|lines| - 1]);
      var raw := lines[|lines| - 1];
      match Classify(raw)
      case Header(name) => Assoc.KeysOfPut(mid.spaces, name, []);
      case Pair(key, value) => Assoc.KeysOfPut(mid.spaces, mid.cursorTable, Assoc.Put(CursorTable(mid), key, value));
      case _ =>
    }
  }

  /** The keys of the table stored under name, in order ([] when there is none). */
  function TableKeys(s: Store, name: string): seq<string>
  {
    match Assoc.Lookup(s.spaces, name)
    case Some(t) => Assoc.KeysOf(t)
    case None => []
  }

  /** A line never drops a key from the default namespace. */
  lemma {:induction false} StepKeepsDefaultKeys(s: Store, raw: string)
    requires WellFormed(s)
    ensures TableKeys(s, DefaultNamespace) <= TableKeys(Step(s, raw), DefaultNamespace)
  {
    var r := Step(s, raw);
    var kind := Classify(raw);
    if kind.Header? {
      StepHeader(s, raw);
      assert Assoc.Lookup(r.spaces, DefaultNamespace) == Assoc.Lookup(s.spaces, DefaultNamespace);
    } else if kind.Pair? {
      StepPair(s, raw);
      if s.cursorTable == DefaultNamespace {
        Assoc.LookupHasKey(s.spaces, DefaultNamespace);
        Assoc.LookupHasKey(r.spaces, DefaultNamespace);
        Assoc.KeysOfPut(CursorTable(s), kind.key, kind.value);
        assert r.spaces == Assoc.Put(s.spaces, DefaultNamespace, Assoc.Put(CursorTable(s), kind.key, kind.value));
        Assoc.LookupPut(s.spaces, DefaultNamespace, Assoc.Put(CursorTable(s), kind.key, kind.value), DefaultNamespace);
      } else {
        assert Assoc.Lookup(r.spaces, DefaultNamespace) == Assoc.Lookup(s.spaces, DefaultNamespace);
      }
    } else {
      assert r == s;
    }
  }

  /** Whatever the file holds, the keys of the default namespace are never dropped or
      reordered while parsing, unlike those of a namespace whose header is repeated. */
  lemma {:induction false} ParseFromKeepsDefaultKeys(s: Store, lines: seq<string>)
    requires WellFormed(s)
    ensures TableKeys(s, DefaultNamespace) <= TableKeys(ParseFrom(s, lines), DefaultNamespace)
    decreases |lines|
  {
    if lines != [] {
      ParseFromKeepsDefaultKeys(s, lines[..|lines| - 1]);
      StepKeepsDefaultKeys(ParseFrom(s, lines[..|lines| - 1]), lines[|lines| - 1]);
    }
  }

  /** Every line leaves both cursor fields on the same name once they agree. */
  lemma {:induction false} StepCursorAgree(s: Store, raw: string)
    requires WellFormed(s) && s.currentKey == s.cursorTable
    ensures Step(s, raw).currentKey == Step(s, raw).cursorTable
  {
    var kind := Classify(raw);
    if kind.Header? {
      StepHeader(s, raw);
    } else if kind.Pair? {
      StepPair(s, raw);
    }
  }

  /** After parsing, "_default_" is the first namespace, both cursor fields name the same
      stored table, and the store is clean. */
  lemma {:induction false} ParseShape(lines: seq<string>)
    ensures var r := Parse(lines);
            && |r.spaces| > 0 && r.spaces[0].0 == DefaultNamespace
            && r.currentKey == r.cursorTable
            && Clean(r)
    decreases |lines|
  {
    var r := Parse(lines);
    ParseFromKeepsNamespaces(Initial(), lines);
    assert Assoc.KeysOf(Initial().spaces) == [DefaultNamespace];
    assert Assoc.KeysOf(r.spaces)[0] == DefaultNamespace;
    ParseFromClean(Initial(), lines);
    if lines != [] {
      ParseShape(lines[..|lines| - 1]);
      StepCursorAgree(Parse(lines[..|lines| - 1]), lines[|lines| - 1]);
    }
  }
}
