/** The keys of a configuration tree: they are joined paths of snake-cased names, distinct
    whenever siblings are, but their environment variables need not be. */
module ConfigKeys {
  import opened Wrappers
  import opened CamelSnake
  import opened Config

  /** The tables agree with ASCII, and no letter is lowered to a dot. */
  ghost predicate Usual(l: Letters)
  {
    ExtendsAscii(l) && forall c :: c != '.' ==> l.toLower(c) != '.'
  }

  lemma AsciiIsUsual()
    ensures Usual(Letters(Upper, Lower, ToLower))
  {
  }

  /** A Go identifier is not empty and holds no dot. */
  ghost predicate Identifier(name: string)
  {
    name != "" && '.' !in name
  }

  /** Sensible trees: identifiers for names, and exported siblings with different snake names. */
  ghost predicate Sensible(l: Letters, fields: seq<Field>)
  {
    && (forall i :: 0 <= i < |fields| ==> Identifier(fields[i].name))
    && (forall i, j :: 0 <= i < j < |fields| && fields[i].exported && fields[j].exported ==>
          ToSnake(l, fields[i].name) != ToSnake(l, fields[j].name))
    && (forall i :: 0 <= i < |fields| && fields[i].Struct? ==> Sensible(l, fields[i].fields))
  }

  // ---------- keys as paths ----------

  function Paths(l: Letters, fields: seq<Field>, path: seq<string>): seq<seq<string>>
    decreases fields, 0
  {
    if fields == [] then [] else PathsOf(l, fields[0], path) + Paths(l, fields[1..], path)
  }

  function PathsOf(l: Letters, f: Field, path: seq<string>): seq<seq<string>>
    decreases f, 1
  {
    if !f.exported then []
    else
      var p := path + [ToSnake(l, f.name)];
      match f
      case Leaf(_, _, _, _, _) => [p]
      case Struct(_, _, inner) => Paths(l, inner, p)
  }

  /** What a part of a key is made of. */
  ghost predicate Parts(path: seq<string>)
  {
    forall k :: 0 <= k < |path| ==> Identifier(path[k])
  }

  lemma {:induction false} SnakeIdentifier(l: Letters, name: string)
    requires Usual(l) && Identifier(name)
    ensures Identifier(ToSnake(l, name))
  {
    SnakeByAdds(l, name, |name|, '.');
  }

  lemma {:induction false} BuildKeyJoins(l: Letters, path: seq<string>, name: string)
    requires Usual(l) && Parts(path) && Identifier(name)
    ensures BuildKey(l, Join(path, '.'), name) == Join(path + [ToSnake(l, name)], '.')
    ensures Parts(path + [ToSnake(l, name)])
  {
    SnakeIdentifier(l, name);
    JoinAppend(path, ToSnake(l, name), '.');
    assert path != [] ==> path[0] != "" && Join(path, '.') != "";
  }

  /** keys are the joins of paths, entry by entry. */
  ghost predicate Matches(slots: seq<Slot>, paths: seq<seq<string>>)
  {
    && |slots| == |paths|
    && forall k :: 0 <= k < |slots| ==> paths[k] != [] && Parts(paths[k]) && slots[k].key == Join(paths[k], '.')
  }

  lemma {:induction false} KeysArePaths(l: Letters, fields: seq<Field>, path: seq<string>)
    requires Usual(l) && Sensible(l, fields) && Parts(path)
    ensures Matches(Slots(l, fields, Join(path, '.')), Paths(l, fields, path))
    decreases fields, 0
  {
    if fields != [] {
      KeysArePathsOf(l, fields[0], path);
      KeysArePaths(l, fields[1..], path);
    }
  }

  lemma {:induction false} KeysArePathsOf(l: Letters, f: Field, path: seq<string>)
    requires Usual(l) && Identifier(f.name) && (f.Struct? ==> Sensible(l, f.fields)) && Parts(path)
    ensures Matches(SlotsOf(l, f, Join(path, '.')), PathsOf(l, f, path))
    decreases f, 1
  {
    BuildKeyJoins(l, path, f.name);
    if f.exported && f.Struct? {
      KeysArePaths(l, f.fields, path + [ToSnake(l, f.name)]);
    }
  }

  // ---------- distinctness ----------

  ghost predicate Under(paths: seq<seq<string>>, path: seq<string>)
  {
    forall k :: 0 <= k < |paths| ==> path <= paths[k]
  }

  lemma {:induction false} PathsOfUnder(l: Letters, f: Field, path: seq<string>)
    ensures Under(PathsOf(l, f, path), path + [ToSnake(l, f.name)])
    decreases f, 1
  {
    if f.exported && f.Struct? {
      PathsUnder(l, f.fields, path + [ToSnake(l, f.name)]);
    }
  }

  /** The path continues with the name of some exported field. */
  ghost predicate ContinuesIn(l: Letters, fields: seq<Field>, path: seq<string>, p: seq<string>)
  {
    |path| < |p| && exists i :: 0 <= i < |fields| && fields[i].exported && ToSnake(l, fields[i].name) == p[|path|]
  }

  lemma {:induction false} PathsUnder(l: Letters, fields: seq<Field>, path: seq<string>)
    ensures Under(Paths(l, fields, path), path)
    ensures forall k :: 0 <= k < |Paths(l, fields, path)| ==> ContinuesIn(l, fields, path, Paths(l, fields, path)[k])
    decreases fields, 0
  {
    if fields != [] {
      var f, rest := fields[0], fields[1..];
      PathsOfUnder(l, f, path);
      PathsUnder(l, rest, path);
      var own, others := PathsOf(l, f, path), Paths(l, rest, path);
      forall k | 0 <= k < |own| + |others|
        ensures path <= (own + others)[k] && ContinuesIn(l, fields, path, (own + others)[k])
      {
        if k < |own| {
          assert path + [ToSnake(l, f.name)] <= own[k];
          assert own[k][|path|] == (path + [ToSnake(l, f.name)])[|path|];
          assert fields[0].exported;
        } else {
          var p := others[k - |own|];
          assert ContinuesIn(l, rest, path, p);
          var i :| 0 <= i < |rest| && rest[i].exported && ToSnake(l, rest[i].name) == p[|path|];
          assert fields[i + 1] == rest[i];
        }
      }
    }
  }

  ghost predicate AllDistinct<T(!new)>(s: seq<T>)
  {
    forall i, j :: 0 <= i < j < |s| ==> s[i] != s[j]
  }

  lemma {:induction false} HeadsDiffer(l: Letters, fields: seq<Field>, path: seq<string>, p: seq<string>, q: seq<string>)
    requires Sensible(l, fields) && fields != [] && fields[0].exported
    requires path + [ToSnake(l, fields[0].name)] <= p && ContinuesIn(l, fields[1..], path, q)
    ensures p != q
  {
    assert p[|path|] == (path + [ToSnake(l, fields[0].name)])[|path|] == ToSnake(l, fields[0].name);
    var rest := fields[1..];
    var m :| 0 <= m < |rest| && rest[m].exported && ToSnake(l, rest[m].name) == q[|path|];
    assert rest[m] == fields[m + 1];
  }

  lemma {:induction false} PathsDistinct(l: Letters, fields: seq<Field>, path: seq<string>)
    requires Sensible(l, fields)
    ensures AllDistinct(Paths(l, fields, path))
    decreases fields
  {
    if fields != [] {
      var f, rest := fields[0], fields[1..];
      var own, others := PathsOf(l, f, path), Paths(l, rest, path);
      if f.exported && f.Struct? {
        PathsDistinct(l, f.fields, path + [ToSnake(l, f.name)]);
      }
      PathsDistinct(l, rest, path);
      PathsOfUnder(l, f, path);
      PathsUnder(l, rest, path);
      forall i, j | 0 <= i < |own| && 0 <= j < |others| ensures own[i] != others[j] {
        assert path + [ToSnake(l, f.name)] <= own[i];
        HeadsDiffer(l, fields, path, own[i], others[j]);
      }
    }
  }

  /** In a sensible tree no two leaves share a key. */
  lemma {:induction false} KeysDistinct(l: Letters, fields: seq<Field>)
    requires Usual(l) && Sensible(l, fields)
    ensures AllDistinct(Keys(Slots(l, fields, "")))
  {
    KeysArePaths(l, fields, []);
    PathsDistinct(l, fields, []);
    var slots, paths := Slots(l, fields, ""), Paths(l, fields, []);
    forall i, j | 0 <= i < j < |slots| ensures slots[i].key != slots[j].key {
      SplitJoin(paths[i], '.');
      SplitJoin(paths[j], '.');
    }
  }

  // ---------- environment variables ----------

  function ToUpper(c: char): char
  {
    if Lower(c) then (c as int - 32) as char else c
  }

  function EnvChar(c: char): char
  {
    var u := ToUpper(c);
    if u == '.' then '_' else u
  }

  /** The variable of a key; reading and listing use this same mapping. */
  function EnvKey(key: string): (r: string)
    ensures |r| == |key| && forall k :: 0 <= k < |key| ==> r[k] == EnvChar(key[k])
  {
    seq(|key|, k requires 0 <= k < |key| => EnvChar(key[k]))
  }

  /** What a variable is called: small letters become capitals, dots underscores, and everything
      else stays. */
  lemma {:induction false} VariableName(key: string, k: nat)
    requires k < |key|
    ensures var c, v := key[k], EnvKey(key)[k];
            && |EnvKey(key)| == |key|
            && ('a' <= c <= 'z' ==> v as int == c as int - 'a' as int + 'A' as int)
            && (c == '.' ==> v == '_')
            && (!('a' <= c <= 'z') && c != '.' ==> v == c)
  {
  }

  lemma VariableExample()
    ensures EnvKey("db.host") == "DB_HOST"
  {
  }

  function Lookup(vars: map<string, string>, name: string): Option<string>
  {
    if name in vars then Some(vars[name]) else None
  }

  /** The environment as a source of values. */
  ghost predicate ReadsVariables(env: Env, vars: map<string, string>)
  {
    forall key :: env.read(key) == Lookup(vars, EnvKey(key))
  }

  /** Listing shows every variable that loading depends on: two environments that agree on the
      listed source keys load alike, error and partial result included. */
  lemma {:induction false} ListedVariablesDecide(env: Env, other: Env, vars: map<string, string>,
                                                 others: map<string, string>, slots: seq<Slot>)
    requires AllLeaves(slots) && env.parse == other.parse
    requires ReadsVariables(env, vars) && ReadsVariables(other, others)
    requires forall k :: 0 <= k < |slots| ==>
               var name := Infos(slots, EnvKey)[k].sourceKey; Lookup(vars, name) == Lookup(others, name)
    ensures EffectOf(env, slots) == EffectOf(other, slots)
  {
    if slots != [] {
      var infos := Infos(slots, EnvKey);
      assert infos[0].sourceKey == EnvKey(slots[0].key);
      assert Resolve(env, slots[0]) == Resolve(other, slots[0]);
      forall k | 0 <= k < |slots[1..]|
        ensures var name := Infos(slots[1..], EnvKey)[k].sourceKey; Lookup(vars, name) == Lookup(others, name)
      {
        assert infos[k + 1] == InfoOf(slots[k + 1], EnvKey);
      }
      ListedVariablesDecide(env, other, vars, others, slots[1..]);
    }
  }

  // ---------- which variables are shared ----------

  /** A key with its dots turned into underscores. */
  function Flat(key: string): (r: string)
    ensures |r| == |key| && forall k :: 0 <= k < |key| ==> r[k] == if key[k] == '.' then '_' else key[k]
  {
    seq(|key|, k requires 0 <= k < |key| => if key[k] == '.' then '_' else key[k])
  }

  lemma {:induction false} SameFlat(a: string, b: string)
    requires NoUpper(a) && NoUpper(b)
    ensures EnvKey(a) == EnvKey(b) <==> Flat(a) == Flat(b)
  {
    if EnvKey(a) == EnvKey(b) {
      forall k | 0 <= k < |a| ensures Flat(a)[k] == Flat(b)[k] {
        assert EnvKey(a)[k] == EnvKey(b)[k];
      }
    }
    if Flat(a) == Flat(b) {
      forall k | 0 <= k < |a| ensures EnvKey(a)[k] == EnvKey(b)[k] {
        assert Flat(a)[k] == Flat(b)[k];
      }
    }
  }

  /** The words of all the names on a path. */
  function PathWords(path: seq<string>): seq<string>
  {
    if path == [] then [] else Split(path[0], '_') + PathWords(path[1..])
  }

  lemma {:induction false} SplitParts(s: string, sep: char)
    ensures Join(Split(s, sep), sep) == s
    ensures forall k :: 0 <= k < |Split(s, sep)| ==> sep !in Split(s, sep)[k]
  {
    if s != "" {
      SplitParts(s[1..], sep);
      JoinHead([s[0]], Split(s[1..], sep), sep);
      assert s == [s[0]] + s[1..];
    }
  }

  /** Text put before a join goes into its first part, and an empty first part is a separator. */
  lemma {:induction false} JoinHead(p: string, parts: seq<string>, sep: char)
    requires parts != []
    ensures Join([p + parts[0]] + parts[1..], sep) == p + Join(parts, sep)
    ensures Join([""] + parts, sep) == [sep] + Join(parts, sep)
  {
    assert ([p + parts[0]] + parts[1..])[1..] == parts[1..];
    assert ([""] + parts)[1..] == parts;
  }

  lemma {:induction false} JoinTwo(a: seq<string>, b: seq<string>, sep: char)
    requires a != [] && b != []
    ensures Join(a + b, sep) == Join(a, sep) + [sep] + Join(b, sep)
  {
    assert (a + b)[0] == a[0] && (a + b)[1..] == a[1..] + b;
    if |a| == 1 {
      assert a[1..] + b == b;
    } else {
      JoinTwo(a[1..], b, sep);
    }
  }

  lemma {:induction false} FlatAppend(p: string, rest: string)
    requires '.' !in p
    ensures Flat(p) == p && Flat(p + "." + rest) == p + "_" + Flat(rest)
  {
  }

  /** The flattened key of a path is the join of its words. */
  lemma {:induction false} FlatIsWords(path: seq<string>)
    requires path != [] && Parts(path)
    ensures PathWords(path) != [] && Flat(Join(path, '.')) == Join(PathWords(path), '_')
    ensures forall k :: 0 <= k < |PathWords(path)| ==> '_' !in PathWords(path)[k]
  {
    SplitParts(path[0], '_');
    if |path| == 1 {
      FlatAppend(path[0], "");
      assert PathWords(path) == Split(path[0], '_');
    } else {
      FlatIsWords(path[1..]);
      FlatAppend(path[0], Join(path[1..], '.'));
      JoinTwo(Split(path[0], '_'), PathWords(path[1..]), '_');
    }
  }

  ghost predicate Lowered(path: seq<string>)
  {
    forall k :: 0 <= k < |path| ==> NoUpper(path[k])
  }

  ghost predicate AsciiNames(fields: seq<Field>)
  {
    && (forall i :: 0 <= i < |fields| ==> Ascii(fields[i].name))
    && (forall i :: 0 <= i < |fields| && fields[i].Struct? ==> AsciiNames(fields[i].fields))
  }

  ghost predicate AllLowered(paths: seq<seq<string>>)
  {
    forall k :: 0 <= k < |paths| ==> Lowered(paths[k])
  }

  lemma {:induction false} PathsLowered(l: Letters, fields: seq<Field>, path: seq<string>)
    requires Usual(l) && AsciiNames(fields) && Lowered(path)
    ensures AllLowered(Paths(l, fields, path))
    decreases fields, 0
  {
    if fields != [] {
      PathsOfLowered(l, fields[0], path);
      PathsLowered(l, fields[1..], path);
    }
  }

  lemma {:induction false} PathsOfLowered(l: Letters, f: Field, path: seq<string>)
    requires Usual(l) && Ascii(f.name) && (f.Struct? ==> AsciiNames(f.fields)) && Lowered(path)
    ensures AllLowered(PathsOf(l, f, path))
    decreases f, 1
  {
    ToSnakeAscii(l, f.name);
    SnakeHasNoUpper(f.name, 0);
    if f.exported && f.Struct? { PathsLowered(l, f.fields, path + [ToSnake(l, f.name)]); }
  }

  lemma {:induction false} JoinHasNoUpper(path: seq<string>)
    requires Lowered(path)
    ensures NoUpper(Join(path, '.'))
  {
    if |path| > 1 { JoinHasNoUpper(path[1..]); }
  }

  /** Two leaves read the same variable iff the names on their paths have the same words, in the
      same order. */
  lemma {:induction false} SameVariableIff(p: seq<string>, q: seq<string>)
    requires p != [] && q != [] && Parts(p) && Parts(q) && Lowered(p) && Lowered(q)
    ensures EnvKey(Join(p, '.')) == EnvKey(Join(q, '.')) <==> PathWords(p) == PathWords(q)
  {
    JoinHasNoUpper(p);
    JoinHasNoUpper(q);
    SameFlat(Join(p, '.'), Join(q, '.'));
    FlatIsWords(p);
    FlatIsWords(q);
    SplitJoin(PathWords(p), '_');
    SplitJoin(PathWords(q), '_');
  }

  function Variables(slots: seq<Slot>): (r: seq<string>)
    ensures |r| == |slots| && forall k :: 0 <= k < |r| ==> r[k] == EnvKey(slots[k].key)
  {
    seq(|slots|, k requires 0 <= k < |slots| => EnvKey(slots[k].key))
  }

  function WordLists(paths: seq<seq<string>>): (r: seq<seq<string>>)
    ensures |r| == |paths| && forall k :: 0 <= k < |r| ==> r[k] == PathWords(paths[k])
  {
    seq(|paths|, k requires 0 <= k < |paths| => PathWords(paths[k]))
  }

  /** The leaves of a sensible tree with ASCII names read different variables exactly when the
      names on their paths spell different lists of words. */
  lemma {:induction false} VariablesDistinctIff(l: Letters, fields: seq<Field>)
    requires Usual(l) && Sensible(l, fields) && AsciiNames(fields)
    ensures var variables, words := Variables(Slots(l, fields, "")), WordLists(Paths(l, fields, []));
            && |variables| == |words|
            && (forall i, j :: 0 <= i < |words| && 0 <= j < |words| ==>
                  (variables[i] == variables[j] <==> words[i] == words[j]))
            && (AllDistinct(variables) <==> AllDistinct(words))
  {
    KeysArePaths(l, fields, []);
    var paths := Paths(l, fields, []);
    var variables, words := Variables(Slots(l, fields, "")), WordLists(paths);
    PathsLowered(l, fields, []);
    forall i, j | 0 <= i < |words| && 0 <= j < |words| ensures variables[i] == variables[j] <==> words[i] == words[j] {
      SameVariableIff(paths[i], paths[j]);
    }
  }

  /** So distinct keys do not mean distinct variables: in this sensible tree both leaves spell the
      words a, bc, d. */
  lemma VariablesCanCollide(l: Letters) returns (fields: seq<Field>)
    requires Usual(l)
    ensures Sensible(l, fields)
    ensures Keys(Slots(l, fields, "")) == ["a.bc_d", "a_bc.d"]
    ensures Paths(l, fields, []) == [["a", "bc_d"], ["a_bc", "d"]]
    ensures !AllDistinct(Variables(Slots(l, fields, "")))
  {
    var one, two := Leaf("BcD", true, StringKind, "", false), Leaf("D", true, StringKind, "", false);
    fields := [Struct("A", true, [one]), Struct("ABc", true, [two])];
    CollidingTree(l, one, two);
    CollidingSlots(l, one, two);
    CollidingPaths(l, one, two);
    SameWordsCollide(l, fields);
  }

  lemma {:induction false} SameWordsCollide(l: Letters, fields: seq<Field>)
    requires Usual(l) && Sensible(l, fields) && AsciiNames(fields)
    requires Paths(l, fields, []) == [["a", "bc_d"], ["a_bc", "d"]]
    ensures !AllDistinct(Variables(Slots(l, fields, "")))
  {
    VariablesDistinctIff(l, fields);
    CollidingWords();
    var words := WordLists(Paths(l, fields, []));
    assert words[0] == words[1];
  }

  lemma CollidingTree(l: Letters, one: Field, two: Field)
    requires ExtendsAscii(l)
    requires one == Leaf("BcD", true, StringKind, "", false) && two == Leaf("D", true, StringKind, "", false)
    ensures Sensible(l, [Struct("A", true, [one]), Struct("ABc", true, [two])])
    ensures AsciiNames([Struct("A", true, [one]), Struct("ABc", true, [two])])
  {
    CollidingNames(l);
    assert Sensible(l, [one]) && Sensible(l, [two]);
    CollidingAscii(one, two);
  }

  lemma CollidingAscii(one: Field, two: Field)
    requires one == Leaf("BcD", true, StringKind, "", false) && two == Leaf("D", true, StringKind, "", false)
    ensures AsciiNames([Struct("A", true, [one]), Struct("ABc", true, [two])])
  {
    assert AsciiNames([one]) && AsciiNames([two]);
  }

  lemma CollidingWords()
    ensures PathWords(["a", "bc_d"]) == ["a", "bc", "d"] == PathWords(["a_bc", "d"])
  {
    SplitPart("a", "bc", '_');
    SplitPart("bc", "d", '_');
    SplitPart("d", "", '_');
    assert "a" + ['_'] + "bc" == "a_bc" && "bc" + ['_'] + "d" == "bc_d";
    var p, q := ["a", "bc_d"], ["a_bc", "d"];
    assert p[1..] == ["bc_d"] && q[1..] == ["d"] && p[1..][1..] == [] && q[1..][1..] == [];
  }

  lemma CollidingPaths(l: Letters, one: Field, two: Field)
    requires ExtendsAscii(l)
    requires one == Leaf("BcD", true, StringKind, "", false) && two == Leaf("D", true, StringKind, "", false)
    ensures Paths(l, [Struct("A", true, [one]), Struct("ABc", true, [two])], []) == [["a", "bc_d"], ["a_bc", "d"]]
  {
    var a, b := Struct("A", true, [one]), Struct("ABc", true, [two]);
    CollidingNames(l);
    OnlyPath(l, a, one, "a", "bc_d");
    OnlyPath(l, b, two, "a_bc", "d");
    assert [a, b][1..] == [b] && [b][1..] == [];
    assert Paths(l, [b], []) == PathsOf(l, b, []) + Paths(l, [], []);
    assert Paths(l, [a, b], []) == PathsOf(l, a, []) + Paths(l, [b], []);
  }

  lemma {:induction false} OnlyPath(l: Letters, f: Field, leaf: Field, outer: string, inner: string)
    requires leaf.Leaf? && leaf.exported && f.Struct? && f.exported && f.fields == [leaf]
    requires ToSnake(l, f.name) == outer && ToSnake(l, leaf.name) == inner
    ensures PathsOf(l, f, []) == [[outer, inner]]
  {
    assert [leaf][1..] == [];
    assert [] + [outer] == [outer];
    assert [outer] + [inner] == [outer, inner];
    assert Paths(l, [leaf], [outer]) == PathsOf(l, leaf, [outer]) + [] == [[outer, inner]];
  }

  lemma CollidingSlots(l: Letters, one: Field, two: Field)
    requires ExtendsAscii(l)
    requires one == Leaf("BcD", true, StringKind, "", false) && two == Leaf("D", true, StringKind, "", false)
    ensures Slots(l, [Struct("A", true, [one]), Struct("ABc", true, [two])], "") == [Slot("a.bc_d", one), Slot("a_bc.d", two)]
  {
    var a, b := Struct("A", true, [one]), Struct("ABc", true, [two]);
    CollidingNames(l);
    OnlySlot(l, a, one, "a", "a.bc_d");
    OnlySlot(l, b, two, "a_bc", "a_bc.d");
    assert [a, b][1..] == [b] && [b][1..] == [];
    assert Slots(l, [b], "") == SlotsOf(l, b, "") + Slots(l, [], "");
    assert Slots(l, [a, b], "") == SlotsOf(l, a, "") + Slots(l, [b], "");
  }

  lemma {:induction false} OnlySlot(l: Letters, f: Field, leaf: Field, prefix: string, key: string)
    requires leaf.Leaf? && leaf.exported && f.Struct? && f.exported && f.fields == [leaf]
    requires prefix != "" && ToSnake(l, f.name) == prefix && key == prefix + "." + ToSnake(l, leaf.name)
    ensures SlotsOf(l, f, "") == [Slot(key, leaf)]
  {
    assert [leaf][1..] == [];
    assert Slots(l, [leaf], prefix) == SlotsOf(l, leaf, prefix) + [];
  }

  lemma CollidingNames(l: Letters)
    requires ExtendsAscii(l)
    ensures ToSnake(l, "A") == "a" && ToSnake(l, "BcD") == "bc_d"
    ensures ToSnake(l, "ABc") == "a_bc" && ToSnake(l, "D") == "d"
  {
    ToSnakeAscii(l, "A");
    ToSnakeAscii(l, "BcD");
    ToSnakeAscii(l, "ABc");
    ToSnakeAscii(l, "D");
    SnakeOfA();
    SnakeOfBcD();
    SnakeOfABc();
    SnakeOfD();
  }

  lemma SnakeOfA()
    ensures Snake("A") == "a"
  {
    assert SnakeFrom("A", 1) == "";
  }

  lemma SnakeOfD()
    ensures Snake("D") == "d"
  {
    assert SnakeFrom("D", 1) == "";
  }

  lemma SnakeOfBcD()
    ensures Snake("BcD") == "bc_d"
  {
    assert SnakeFrom("BcD", 2) == "_d";
    assert SnakeFrom("BcD", 1) == "c_d";
  }

  lemma SnakeOfABc()
    ensures Snake("ABc") == "a_bc"
  {
    assert SnakeFrom("ABc", 2) == "c";
    assert SnakeFrom("ABc", 1) == "_bc";
  }
}
