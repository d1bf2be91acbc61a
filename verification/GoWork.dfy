/** new-lab.py's registration of a module in the use block of go.work. */
module GoWork {
  import opened Wrappers
  import opened Sorting
  import opened TextOrder

  datatype WorkError = NoBlock | UnclosedBlock

  // ---------- stripping ----------

  predicate Space(c: char)
  {
    c == ' ' || 9 as char <= c <= 13 as char || 28 as char <= c <= 31 as char
  }

  function StripLeft(s: string): string
  {
    if s != "" && Space(s[0]) then StripLeft(s[1..]) else s
  }

  function StripRight(s: string): string
  {
    if s != "" && Space(s[|s| - 1]) then StripRight(s[..|s| - 1]) else s
  }

  function Strip(s: string): string { StripRight(StripLeft(s)) }

  predicate Stripped(s: string)
  {
    s == "" || (!Space(s[0]) && !Space(s[|s| - 1]))
  }

  lemma {:induction false} StripLeftClean(s: string)
    ensures StripLeft(s) == "" || !Space(StripLeft(s)[0])
  {
    if s != "" && Space(s[0]) { StripLeftClean(s[1..]); }
  }

  lemma {:induction false} StripRightClean(s: string)
    requires s == "" || !Space(s[0])
    ensures Stripped(StripRight(s))
  {
    if s != "" && Space(s[|s| - 1]) { StripRightClean(s[..|s| - 1]); }
  }

  lemma {:induction false} StripStrips(s: string)
    ensures Stripped(Strip(s))
  {
    StripLeftClean(s);
    StripRightClean(StripLeft(s));
  }

  lemma {:induction false} StripStable(s: string)
    requires Stripped(s)
    ensures Strip(s) == s && Strip("\t" + s) == s
  {
    assert ("\t" + s)[1..] == s;
  }

  ghost predicate Blank(s: string)
  {
    forall k :: 0 <= k < |s| ==> Space(s[k])
  }

  lemma {:induction false} LeftRest(s: string) returns (a: string)
    ensures Blank(a) && s == a + StripLeft(s)
  {
    if s != "" && Space(s[0]) {
      a := LeftRest(s[1..]);
      a := [s[0]] + a;
      assert s == [s[0]] + s[1..];
    } else {
      a := "";
    }
  }

  lemma {:induction false} RightRest(s: string) returns (b: string)
    ensures Blank(b) && s == StripRight(s) + b
  {
    if s != "" && Space(s[|s| - 1]) {
      b := RightRest(s[..|s| - 1]);
      b := b + [s[|s| - 1]];
      assert s == s[..|s| - 1] + [s[|s| - 1]];
    } else {
      b := "";
    }
  }

  /** Stripping takes the white space off both ends: the ASCII characters tab to carriage return,
      the four separators, and the blank. */
  lemma {:induction false} StripMeaning(s: string) returns (a: string, b: string)
    ensures s == a + Strip(s) + b && Stripped(Strip(s)) && Blank(a) && Blank(b)
    ensures forall c: char :: Space(c) <==> c in {' ', '\t', '\n', 11 as char, 12 as char, '\r',
                                                28 as char, 29 as char, 30 as char, 31 as char}
  {
    StripStrips(s);
    a := LeftRest(s);
    b := RightRest(StripLeft(s));
  }

  // ---------- the file ----------

  /** The first line from index from on whose stripped text is target. */
  function Find(lines: seq<string>, target: string, from: nat): (i: nat)
    requires from <= |lines|
    ensures from <= i <= |lines|
    ensures i < |lines| ==> Strip(lines[i]) == target
    ensures forall k :: from <= k < i ==> Strip(lines[k]) != target
    decreases |lines| - from
  {
    if from == |lines| || Strip(lines[from]) == target then from else Find(lines, target, from + 1)
  }

  lemma {:induction false} FindUnique(lines: seq<string>, target: string, from: nat, i: nat)
    requires from <= i < |lines| && Strip(lines[i]) == target
    requires forall k :: from <= k < i ==> Strip(lines[k]) != target
    ensures Find(lines, target, from) == i
  {
  }

  function Entries(lines: seq<string>): (es: seq<string>)
  {
    if lines == [] then []
    else
      var e := Strip(lines[0]);
      (if e != "" then [e] else []) + Entries(lines[1..])
  }

  /** The entries are the stripped lines that are not empty, in order. */
  lemma {:induction false} EntriesMeaning(a: seq<string>, line: string, b: seq<string>)
    ensures Entries(a + [line] + b) == Entries(a) + (if Strip(line) == "" then [] else [Strip(line)]) + Entries(b)
  {
    if a == [] {
      assert ([] + [line] + b)[1..] == b;
    } else {
      assert (a + [line] + b)[1..] == a[1..] + [line] + b;
      EntriesMeaning(a[1..], line, b);
    }
  }

  const OPEN := "use ("
  const CLOSE := ")"

  /** The file seen as the lines before the block, the block's entries, and the lines after. */
  datatype Work = Work(before: seq<string>, entries: seq<string>, after: seq<string>)

  function Parse(lines: seq<string>): Result<Work, WorkError>
  {
    var start := Find(lines, OPEN, 0);
    if start == |lines| then Err(NoBlock)
    else
      var end := Find(lines, CLOSE, start);
      if end == |lines| then Err(UnclosedBlock)
      else
        assert Strip(lines[start]) == OPEN;
        Ok(Work(lines[..start], Entries(lines[start + 1..end]), lines[end + 1..]))
  }

  /** Line i is the first from index from on that strips to target. */
  ghost predicate FirstLine(lines: seq<string>, target: string, from: nat, i: nat)
  {
    from <= i < |lines| && Strip(lines[i]) == target && forall k :: from <= k < i ==> Strip(lines[k]) != target
  }

  /** When a file has no block, when its block is unclosed, and where the block is otherwise. */
  lemma {:induction false} ParseMeaning(lines: seq<string>)
    ensures Parse(lines) == Err(NoBlock) <==> forall k :: 0 <= k < |lines| ==> Strip(lines[k]) != "use ("
    ensures Parse(lines) == Err(UnclosedBlock) <==>
            exists i: nat :: FirstLine(lines, "use (", 0, i) && forall k :: i <= k < |lines| ==> Strip(lines[k]) != ")"
    ensures forall i: nat, j: nat :: FirstLine(lines, "use (", 0, i) && FirstLine(lines, ")", i, j) ==>
              Parse(lines) == Ok(Work(lines[..i], Entries(lines[i + 1..j]), lines[j + 1..]))
  {
    var start := Find(lines, OPEN, 0);
    if start < |lines| {
      assert FirstLine(lines, "use (", 0, start);
    }
    forall i: nat, j: nat | FirstLine(lines, "use (", 0, i) && FirstLine(lines, ")", i, j)
      ensures Find(lines, OPEN, 0) == i && Find(lines, CLOSE, i) == j
    {
      FindUnique(lines, OPEN, 0, i);
      FindUnique(lines, CLOSE, i, j);
    }
  }

  function Tabbed(entries: seq<string>): (r: seq<string>)
    ensures |r| == |entries| && forall k :: 0 <= k < |r| ==> r[k] == "\t" + entries[k]
  {
    seq(|entries|, k requires 0 <= k < |entries| => "\t" + entries[k])
  }

  function Render(w: Work): seq<string>
  {
    w.before + ([OPEN] + Tabbed(w.entries) + [CLOSE]) + w.after
  }

  /** Parts that rendering and parsing keep apart. */
  ghost predicate Proper(w: Work)
  {
    && (forall k :: 0 <= k < |w.before| ==> Strip(w.before[k]) != OPEN)
    && (forall k :: 0 <= k < |w.entries| ==> ProperEntry(w.entries[k]))
  }

  ghost predicate ProperEntry(e: string)
  {
    Stripped(e) && e != "" && e != CLOSE
  }

  lemma {:induction false} EntriesProper(lines: seq<string>)
    requires forall k :: 0 <= k < |lines| ==> Strip(lines[k]) != CLOSE
    ensures forall k :: 0 <= k < |Entries(lines)| ==> ProperEntry(Entries(lines)[k])
  {
    if lines != [] {
      EntriesProper(lines[1..]);
      StripStrips(lines[0]);
    }
  }

  lemma {:induction false} ParseIsProper(lines: seq<string>)
    requires Parse(lines).Ok?
    ensures Proper(Parse(lines).value)
  {
    var start := Find(lines, OPEN, 0);
    var end := Find(lines, CLOSE, start);
    EntriesProper(lines[start + 1..end]);
  }

  lemma {:induction false} EntriesTabbed(entries: seq<string>)
    requires forall k :: 0 <= k < |entries| ==> ProperEntry(entries[k])
    ensures Entries(Tabbed(entries)) == entries
  {
    if entries != [] {
      StripStable(entries[0]);
      EntriesTabbed(entries[1..]);
      assert Tabbed(entries)[1..] == Tabbed(entries[1..]);
    } else {
      assert Tabbed(entries) == [];
    }
  }

  /** What was rendered is parsed back. */
  lemma ParseRender(w: Work)
    requires Proper(w)
    ensures Parse(Render(w)) == Ok(w)
  {
    var lines := Render(w);
    var start, end := |w.before|, |w.before| + 1 + |w.entries|;
    StripStable(OPEN);
    StripStable(CLOSE);
    assert lines[start] == OPEN && lines[end] == CLOSE;
    forall k | 0 <= k < start ensures Strip(lines[k]) != OPEN {
      assert lines[k] == w.before[k];
    }
    FindUnique(lines, OPEN, 0, start);
    forall k | start <= k < end ensures Strip(lines[k]) != CLOSE {
      if k > start {
        assert lines[k] == "\t" + w.entries[k - start - 1];
        StripStable(w.entries[k - start - 1]);
      }
    }
    FindUnique(lines, CLOSE, start, end);
    assert lines[..start] == w.before;
    assert lines[start + 1..end] == Tabbed(w.entries);
    assert lines[end + 1..] == w.after;
    EntriesTabbed(w.entries);
  }

  // ---------- registration ----------

  predicate NameChar(c: char) { 'a' <= c <= 'z' || '0' <= c <= '9' || c == '-' }

  /** The names that new-lab.py accepts. */
  predicate ValidName(name: string)
  {
    name != "" && name[0] != '-' && forall k :: 0 <= k < |name| ==> NameChar(name[k])
  }

  function EntryOf(name: string): string { "./" + name }

  lemma {:induction false} EntryIsProper(name: string)
    requires ValidName(name)
    ensures ProperEntry(EntryOf(name))
  {
    var e := EntryOf(name);
    assert e[|e| - 1] == name[|name| - 1];
  }

  function Add(lines: seq<string>, name: string): Result<seq<string>, WorkError>
  {
    match Parse(lines)
    case Err(e) => Err(e)
    case Ok(w) =>
      if EntryOf(name) in w.entries then Ok(lines)
      else Ok(Render(w.(entries := Sort(Leq, w.entries + [EntryOf(name)]))))
  }

  class File {
    var lines: seq<string>

    constructor (lines: seq<string>)
      ensures this.lines == lines
    {
      this.lines := lines;
    }
  }

  method AddToGoWork(file: File, name: string) returns (err: Option<WorkError>)
    modifies file
    ensures match Add(old(file.lines), name)
            case Err(e) => err == Some(e) && file.lines == old(file.lines)
            case Ok(lines) => err == None && file.lines == lines
  {
    var lines := file.lines;
    var start := Find(lines, OPEN, 0);
    if start == |lines| {
      return Some(NoBlock);
    }
    var end := Find(lines, CLOSE, start);
    if end == |lines| {
      return Some(UnclosedBlock);
    }
    assert Strip(lines[start]) == OPEN;
    var entry := EntryOf(name);
    var entries := Entries(lines[start + 1..end]);
    if entry in entries {
      return None;
    }
    entries := entries + [entry];
    entries := Sort(Leq, entries);
    lines := lines[..start] + ([OPEN] + Tabbed(entries) + [CLOSE]) + lines[end + 1..];
    file.lines := lines;
    return None;
  }

  function AddAll(lines: seq<string>, names: seq<string>): Result<seq<string>, WorkError>
    decreases |names|
  {
    if names == [] then Ok(lines)
    else
      match AddAll(lines, names[..|names| - 1])
      case Err(e) => Err(e)
      case Ok(l) => Add(l, names[|names| - 1])
  }

  // ---------- the result depends on the set of names only ----------

  function NewEntries(w: Work, names: set<string>): set<string>
  {
    set n | n in names && EntryOf(n) !in w.entries :: EntryOf(n)
  }

  /** lines is what the file w (whose text was original) becomes once names are registered: the
      untouched text if nothing was new, and otherwise the block of all former entries and the
      new ones, each once, in sorted order, between the same surroundings. */
  ghost predicate Registered(original: seq<string>, w: Work, names: set<string>, lines: seq<string>)
  {
    if NewEntries(w, names) == {} then lines == original
    else exists es ::
      Sorted(Leq, es) && multiset(es) == multiset(w.entries) + multiset(NewEntries(w, names)) &&
      lines == Render(w.(entries := es))
  }

  lemma {:induction false} RegisteredUnique(original: seq<string>, w: Work, names: set<string>, a: seq<string>, b: seq<string>)
    requires Registered(original, w, names, a) && Registered(original, w, names, b)
    ensures a == b
  {
    if NewEntries(w, names) != {} {
      var es :| Sorted(Leq, es) && multiset(es) == multiset(w.entries) + multiset(NewEntries(w, names)) &&
                a == Render(w.(entries := es));
      var fs :| Sorted(Leq, fs) && multiset(fs) == multiset(w.entries) + multiset(NewEntries(w, names)) &&
                b == Render(w.(entries := fs));
      SortedTextUnique(es, fs);
    }
  }

  lemma {:induction false} AppendMultiset(s: seq<string>, e: string)
    ensures multiset(s + [e]) == multiset(s) + multiset{e}
  {
  }

  lemma {:induction false} GrowSet(m: multiset<string>, s: set<string>, e: string)
    requires e !in s
    ensures (m + multiset(s)) + multiset{e} == m + multiset(s + {e})
  {
  }

  lemma {:induction false} NewEntriesStep(w: Work, names: set<string>, name: string)
    ensures NewEntries(w, names + {name}) ==
            NewEntries(w, names) + if EntryOf(name) in w.entries then {} else {EntryOf(name)}
  {
  }

  /** The registered file parses, to the same surroundings. */
  lemma {:induction false} RegisteredParses(original: seq<string>, w: Work, names: set<string>, es: seq<string>)
    requires Parse(original) == Ok(w) && forall n :: n in names ==> ValidName(n)
    requires multiset(es) == multiset(w.entries) + multiset(NewEntries(w, names))
    ensures Parse(Render(w.(entries := es))) == Ok(w.(entries := es))
    ensures forall e :: e in es <==> e in w.entries || e in NewEntries(w, names)
  {
    ParseIsProper(original);
    forall e ensures e in es <==> e in w.entries || e in NewEntries(w, names) {
      assert e in es <==> e in multiset(es);
    }
    forall k | 0 <= k < |es| ensures ProperEntry(es[k]) {
      assert es[k] in es;
      if es[k] in NewEntries(w, names) {
        var n :| n in names && EntryOf(n) == es[k];
        EntryIsProper(n);
      }
    }
    ParseRender(w.(entries := es));
  }

  lemma {:induction false} AddToUntouched(original: seq<string>, w: Work, names: set<string>, name: string)
    requires Parse(original) == Ok(w) && NewEntries(w, names) == {}
    ensures Add(original, name).Ok? && Registered(original, w, names + {name}, Add(original, name).value)
  {
    var e := EntryOf(name);
    NewEntriesStep(w, names, name);
    if e !in w.entries {
      var es := Sort(Leq, w.entries + [e]);
      SortedText(w.entries + [e]);
      AppendMultiset(w.entries, e);
      assert multiset({e}) == multiset{e};
      assert {} + {e} == {e};
    }
  }

  lemma {:induction false} AddToSorted(original: seq<string>, w: Work, names: set<string>, es: seq<string>, name: string)
    requires Parse(original) == Ok(w) && forall n :: n in names ==> ValidName(n)
    requires NewEntries(w, names) != {} && Sorted(Leq, es)
    requires multiset(es) == multiset(w.entries) + multiset(NewEntries(w, names))
    ensures var lines := Render(w.(entries := es));
            Add(lines, name).Ok? && Registered(original, w, names + {name}, Add(lines, name).value)
  {
    var e := EntryOf(name);
    RegisteredParses(original, w, names, es);
    NewEntriesStep(w, names, name);
    var before, now := NewEntries(w, names), NewEntries(w, names + {name});
    if e in es {
      assert now == before;
    } else {
      var fs := Sort(Leq, es + [e]);
      SortedText(es + [e]);
      AppendMultiset(es, e);
      GrowSet(multiset(w.entries), before, e);
      assert now == before + {e};
      assert multiset(fs) == multiset(w.entries) + multiset(now);
    }
  }

  lemma {:induction false} AddKeepsRegistered(original: seq<string>, w: Work, names: set<string>, lines: seq<string>, name: string)
    requires Parse(original) == Ok(w) && forall n :: n in names ==> ValidName(n)
    requires Registered(original, w, names, lines)
    ensures Add(lines, name).Ok? && Registered(original, w, names + {name}, Add(lines, name).value)
  {
    if NewEntries(w, names) == {} {
      AddToUntouched(original, w, names, name);
    } else {
      var es :| Sorted(Leq, es) && multiset(es) == multiset(w.entries) + multiset(NewEntries(w, names)) &&
                lines == Render(w.(entries := es));
      AddToSorted(original, w, names, es, name);
    }
  }

  function NameSet(names: seq<string>): set<string>
  {
    set n | n in names
  }

  ghost predicate ValidNames(names: seq<string>)
  {
    forall k :: 0 <= k < |names| ==> ValidName(names[k])
  }

  lemma {:induction false} NameSetGrows(names: seq<string>)
    requires names != [] && ValidNames(names)
    ensures NameSet(names) == NameSet(names[..|names| - 1]) + {names[|names| - 1]}
    ensures forall n :: n in NameSet(names[..|names| - 1]) ==> ValidName(n)
  {
    assert names == names[..|names| - 1] + [names[|names| - 1]];
  }

  /** What any sequence of registrations does to a file with a use block. */
  lemma {:induction false} AddAllRegisters(lines: seq<string>, names: seq<string>)
    requires Parse(lines).Ok? && ValidNames(names)
    ensures AddAll(lines, names).Ok?
    ensures Registered(lines, Parse(lines).value, NameSet(names), AddAll(lines, names).value)
    decreases |names|
  {
    var w := Parse(lines).value;
    if names == [] {
      assert NewEntries(w, NameSet(names)) == {};
    } else {
      var front, last := names[..|names| - 1], names[|names| - 1];
      AddAllRegisters(lines, front);
      NameSetGrows(names);
      AddKeepsRegistered(lines, w, NameSet(front), AddAll(lines, front).value, last);
    }
  }

  lemma {:induction false} AddAllFails(lines: seq<string>, names: seq<string>)
    requires Parse(lines).Err? && names != []
    ensures AddAll(lines, names) == Err(Parse(lines).error)
    decreases |names|
  {
    if |names| > 1 {
      AddAllFails(lines, names[..|names| - 1]);
    } else {
      assert names[..0] == [];
    }
  }

  /** Order independence: registering the same names in any order, and any number of times
      each, leaves the same file or fails with the same error. */
  lemma {:induction false} OrderDoesNotMatter(lines: seq<string>, names: seq<string>, others: seq<string>)
    requires ValidNames(names) && ValidNames(others) && NameSet(names) == NameSet(others)
    ensures AddAll(lines, names) == AddAll(lines, others)
  {
    match Parse(lines) {
      case Ok(w) =>
        AddAllRegisters(lines, names);
        AddAllRegisters(lines, others);
        RegisteredUnique(lines, w, NameSet(names), AddAll(lines, names).value, AddAll(lines, others).value);
      case Err(_) =>
        assert names == [] <==> NameSet(names) == {} by { if names != [] { assert names[0] in NameSet(names); } }
        assert others == [] <==> NameSet(others) == {} by { if others != [] { assert others[0] in NameSet(others); } }
        if names != [] {
          AddAllFails(lines, names);
          AddAllFails(lines, others);
        }
    }
  }

  /** Registering a name again changes nothing. */
  lemma {:induction false} RepeatIsNoOp(lines: seq<string>, names: seq<string>, name: string)
    requires Parse(lines).Ok? && ValidNames(names) && name in names
    ensures AddAll(lines, names).Ok? && Add(AddAll(lines, names).value, name) == Ok(AddAll(lines, names).value)
  {
    AddAllRegisters(lines, names);
    var again := names + [name];
    assert again[..|again| - 1] == names;
    assert NameSet(again) == NameSet(names);
    AddAllRegisters(lines, again);
    OrderDoesNotMatter(lines, names, again);
  }

  /** A name that was new is registered on a line of its own: a tab, a dot, a slash and the name. */
  lemma {:induction false} RegisteredLine(lines: seq<string>, name: string)
    requires Parse(lines).Ok? && "./" + name !in Parse(lines).value.entries
    ensures Add(lines, name).Ok? && "\t./" + name in Add(lines, name).value
    ensures "use (" in Add(lines, name).value && ")" in Add(lines, name).value
  {
    var es, k := NewEntrySorted(Parse(lines).value.entries, "./" + name);
    assert "\t" + ("./" + name) == "\t./" + name;
    RenderedLines(Parse(lines).value.(entries := es), k);
  }

  lemma {:induction false} NewEntrySorted(entries: seq<string>, e: string) returns (es: seq<string>, k: nat)
    ensures es == Sort(Leq, entries + [e]) && k < |es| && es[k] == e
  {
    es := Sort(Leq, entries + [e]);
    SortedText(entries + [e]);
    AppendMultiset(entries, e);
    assert e in multiset(es);
    k :| 0 <= k < |es| && es[k] == e;
  }

  lemma RenderedLines(w: Work, k: nat)
    requires k < |w.entries|
    ensures "\t" + w.entries[k] in Render(w) && "use (" in Render(w) && ")" in Render(w)
  {
    var es, all := w.entries, Render(w);
    assert Tabbed(es)[k] == "\t" + es[k];
    assert all[|w.before|] == OPEN && all[|w.before| + 1 + |es|] == CLOSE;
    assert all[|w.before| + 1 + k] == Tabbed(es)[k];
  }

  /** An example. */
  lemma RegistrationExample()
    ensures Add(["go 1.25", "use (", "\t./lib", ")"], "lab-1") ==
            Ok(["go 1.25", "use (", "\t./lab-1", "\t./lib", ")"])
  {
    ExampleFiles();
    ExampleParses();
    assert "./" + "lab-1" == "./lab-1";
    ExampleOrder();
    assert ["./lib"] + ["./lab-1"] == ["./lib"] + [EntryOf("lab-1")];
  }

  lemma ExampleParses()
    ensures Parse(["go 1.25", "use (", "\t./lib", ")"]) == Ok(Work(["go 1.25"], ["./lib"], []))
  {
    ExampleFiles();
    StripStable("go 1.25");
    ParseRender(Work(["go 1.25"], ["./lib"], []));
  }

  lemma ExampleFiles()
    ensures Render(Work(["go 1.25"], ["./lib"], [])) == ["go 1.25", "use (", "\t./lib", ")"]
    ensures Render(Work(["go 1.25"], ["./lab-1", "./lib"], [])) == ["go 1.25", "use (", "\t./lab-1", "\t./lib", ")"]
  {
    assert "\t" + "./lib" == "\t./lib" && "\t" + "./lab-1" == "\t./lab-1";
    assert Tabbed(["./lib"]) == ["\t./lib"];
    assert Tabbed(["./lab-1", "./lib"]) == ["\t./lab-1", "\t./lib"];
  }

  lemma ExampleOrder()
    ensures Sort(Leq, ["./lib"] + ["./lab-1"]) == ["./lab-1", "./lib"]
  {
    var a, b := "./lab-1", "./lib";
    assert DifferAt(a, b, 3);
    LeqMeaning(a, b);
    assert [b][1..] == [] && ([b] + [a])[1..] == [a] && [a][1..] == [];
    assert Sort(Leq, []) == [] && Sort(Leq, [a]) == Insert(Leq, a, []) == [a];
    LeqTotal(a, b);
    assert DifferAt(b, a, 3);
    LeqMeaning(b, a);
    assert Insert(Leq, b, [a]) == [a] + Insert(Leq, b, []);
  }
}
