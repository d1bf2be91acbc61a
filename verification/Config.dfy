/** lib/config: loading a configuration struct from a key source, and listing its fields. The
    two traversals walk the same tree and must agree on its keys. */
module Config {
  import opened Wrappers
  import opened CamelSnake
  import opened Sequences

  datatype Kind = StringKind | IntKind | DurationKind | BoolKind | FloatKind | OtherKind

  /** A struct field: a leaf with its tags, or a nested struct. */
  datatype Field =
    | Leaf(name: string, exported: bool, kind: Kind, default: string, optional: bool)
    | Struct(name: string, exported: bool, fields: seq<Field>)

  /** A parsed value; what it is made of plays no part here. */
  type Value = string

  datatype LoadError = BadValue(key: string) | BadDefault(key: string) | Missing(key: string)

  /** The key source, and the partial parser that setField applies for each kind. */
  datatype Env = Env(read: string -> Option<string>, parse: (Kind, string) -> Option<Value>)

  function BuildKey(l: Letters, prefix: string, name: string): string
  {
    var key := ToSnake(l, name);
    if prefix != "" then prefix + "." + key else key
  }

  // ---------- the leaves of a tree ----------

  datatype Slot = Slot(key: string, leaf: Field)

  /** The exported leaves below fields, in order, with their keys. */
  function Slots(l: Letters, fields: seq<Field>, prefix: string): seq<Slot>
    decreases fields, 0
  {
    if fields == [] then [] else SlotsOf(l, fields[0], prefix) + Slots(l, fields[1..], prefix)
  }

  function SlotsOf(l: Letters, f: Field, prefix: string): seq<Slot>
    decreases f, 1
  {
    if !f.exported then []
    else
      var key := BuildKey(l, prefix, f.name);
      match f
      case Leaf(_, _, _, _, _) => [Slot(key, f)]
      case Struct(_, _, inner) => Slots(l, inner, key)
  }

  /** Going down from fields by the indices at, through exported fields only, one arrives at leaf,
      and its key is made of the names on the way. */
  ghost predicate LeafAt(l: Letters, fields: seq<Field>, prefix: string, at: seq<nat>, key: string, leaf: Field)
    decreases |at|
  {
    && at != [] && at[0] < |fields| && fields[at[0]].exported
    && var f := fields[at[0]];
       var own := if prefix == "" then ToSnake(l, f.name) else prefix + "." + ToSnake(l, f.name);
       if |at| == 1 then f.Leaf? && f == leaf && key == own
       else f.Struct? && LeafAt(l, f.fields, own, at[1..], key, leaf)
  }

  ghost predicate IsLeaf(l: Letters, fields: seq<Field>, prefix: string, key: string, leaf: Field)
  {
    exists at :: LeafAt(l, fields, prefix, at, key, leaf)
  }

  /** The slots are the leaves that can be reached through exported fields, with their keys. */
  lemma {:induction false} SlotsAreTheLeaves(l: Letters, fields: seq<Field>, prefix: string, key: string, leaf: Field)
    ensures Slot(key, leaf) in Slots(l, fields, prefix) <==> IsLeaf(l, fields, prefix, key, leaf)
    decreases fields, 0
  {
    if fields != [] {
      SlotsOfAreTheLeaves(l, fields, prefix, key, leaf);
      SlotsAreTheLeaves(l, fields[1..], prefix, key, leaf);
      if IsLeaf(l, fields[1..], prefix, key, leaf) {
        var at :| LeafAt(l, fields[1..], prefix, at, key, leaf);
        ShiftLeaf(l, fields, prefix, at, [at[0] + 1] + at[1..], key, leaf);
      }
      if at :| LeafAt(l, fields, prefix, at, key, leaf) && at[0] != 0 {
        ShiftLeaf(l, fields, prefix, [at[0] - 1] + at[1..], at, key, leaf);
      }
    }
  }

  lemma {:induction false} ShiftLeaf(l: Letters, fields: seq<Field>, prefix: string, at: seq<nat>, to: seq<nat>, key: string, leaf: Field)
    requires fields != [] && at != [] && to != [] && to[0] == at[0] + 1 && to[1..] == at[1..]
    ensures LeafAt(l, fields[1..], prefix, at, key, leaf) <==> LeafAt(l, fields, prefix, to, key, leaf)
  {
    assert at[0] < |fields[1..]| ==> fields[1..][at[0]] == fields[to[0]];
  }

  /** Those of the first field. */
  lemma {:induction false} SlotsOfAreTheLeaves(l: Letters, fields: seq<Field>, prefix: string, key: string, leaf: Field)
    requires fields != []
    ensures Slot(key, leaf) in SlotsOf(l, fields[0], prefix) <==>
            exists at :: LeafAt(l, fields, prefix, at, key, leaf) && at[0] == 0
    decreases fields[0], 1
  {
    var f := fields[0];
    var own := BuildKey(l, prefix, f.name);
    if f.exported && f.Struct? {
      SlotsAreTheLeaves(l, f.fields, own, key, leaf);
      if at :| LeafAt(l, f.fields, own, at, key, leaf) {
        assert ([0] + at)[1..] == at;
        assert LeafAt(l, fields, prefix, [0] + at, key, leaf);
      }
      if at :| LeafAt(l, fields, prefix, at, key, leaf) && at[0] == 0 {
        assert LeafAt(l, f.fields, own, at[1..], key, leaf);
      }
    } else if f.exported && f == leaf && key == own {
      assert LeafAt(l, fields, prefix, [0], key, leaf);
    }
  }

  lemma {:induction false} SlotsAppend(l: Letters, a: seq<Field>, b: seq<Field>, prefix: string)
    ensures Slots(l, a + b, prefix) == Slots(l, a, prefix) + Slots(l, b, prefix)
    decreases |a|
  {
    if a == [] {
      assert a + b == b;
    } else {
      SlotsAppend(l, a[1..], b, prefix);
      assert (a + b)[0] == a[0] && (a + b)[1..] == a[1..] + b;
      Assoc(SlotsOf(l, a[0], prefix), Slots(l, a[1..], prefix), Slots(l, b, prefix));
    }
  }

  lemma {:induction false} SlotsOfOne(l: Letters, f: Field, prefix: string)
    ensures Slots(l, [f], prefix) == SlotsOf(l, f, prefix)
  {
    assert [f][1..] == [];
    assert Slots(l, [f], prefix) == SlotsOf(l, f, prefix) + [];
  }

  /** The field at i splits the tree's leaves into those before, its own, and those after. */
  lemma {:induction false} SlotsAt(l: Letters, fields: seq<Field>, i: nat, prefix: string)
    requires i < |fields|
    ensures Slots(l, fields[..i + 1], prefix) == Slots(l, fields[..i], prefix) + SlotsOf(l, fields[i], prefix)
    ensures Slots(l, fields, prefix) == Slots(l, fields[..i + 1], prefix) + Slots(l, fields[i + 1..], prefix)
  {
    SlotsAppend(l, fields[..i], [fields[i]], prefix);
    SlotsOfOne(l, fields[i], prefix);
    assert fields[..i] + [fields[i]] == fields[..i + 1];
    SlotsAppend(l, fields[..i + 1], fields[i + 1..], prefix);
    assert fields[..i + 1] + fields[i + 1..] == fields;
  }

  // ---------- what loading a list of leaves does ----------

  /** What becomes of one leaf: a value is set, it is left alone, or loading fails. */
  function Resolve(env: Env, slot: Slot): Result<Option<Value>, LoadError>
    requires slot.leaf.Leaf?
  {
    match env.read(slot.key)
    case Some(raw) =>
      (match env.parse(slot.leaf.kind, raw)
       case Some(v) => Ok(Some(v))
       case None => Err(BadValue(slot.key)))
    case None =>
      if slot.leaf.default != "" then
        (match env.parse(slot.leaf.kind, slot.leaf.default)
         case Some(v) => Ok(Some(v))
         case None => Err(BadDefault(slot.key)))
      else if slot.leaf.optional then Ok(None)
      else Err(Missing(slot.key))
  }

  ghost predicate AllLeaves(slots: seq<Slot>)
  {
    forall k :: 0 <= k < |slots| ==> slots[k].leaf.Leaf?
  }

  lemma {:induction false} SlotsAreLeaves(l: Letters, fields: seq<Field>, prefix: string)
    ensures AllLeaves(Slots(l, fields, prefix))
    decreases fields, 0
  {
    if fields != [] {
      SlotsOfAreLeaves(l, fields[0], prefix);
      SlotsAreLeaves(l, fields[1..], prefix);
    }
  }

  lemma {:induction false} SlotsOfAreLeaves(l: Letters, f: Field, prefix: string)
    ensures AllLeaves(SlotsOf(l, f, prefix))
    decreases f, 1
  {
    if f.exported && f.Struct? {
      SlotsAreLeaves(l, f.fields, BuildKey(l, prefix, f.name));
    }
  }

  /** The effect of loading: the error if any, the keys read, and the values set, in order. */
  datatype Effect = Effect(err: Option<LoadError>, asked: seq<string>, stored: seq<(string, Value)>)

  const NOTHING := Effect(None, [], [])

  function Then(a: Effect, b: Effect): Effect
  {
    if a.err.Some? then a else Effect(b.err, a.asked + b.asked, a.stored + b.stored)
  }

  ghost function EffectOf(env: Env, slots: seq<Slot>): Effect
    requires AllLeaves(slots)
  {
    if slots == [] then NOTHING else Then(EffectOfOne(env, slots[0]), EffectOf(env, slots[1..]))
  }

  ghost function EffectOfOne(env: Env, s: Slot): Effect
    requires s.leaf.Leaf?
  {
    match Resolve(env, s)
    case Ok(Some(v)) => Effect(None, [s.key], [(s.key, v)])
    case Ok(None) => Effect(None, [s.key], [])
    case Err(e) => Effect(Some(e), [s.key], [])
  }

  lemma ThenAssoc(a: Effect, b: Effect, c: Effect)
    ensures Then(Then(a, b), c) == Then(a, Then(b, c))
  {
  }

  lemma {:induction false} EffectAppend(env: Env, a: seq<Slot>, b: seq<Slot>)
    requires AllLeaves(a) && AllLeaves(b)
    ensures AllLeaves(a + b) && EffectOf(env, a + b) == Then(EffectOf(env, a), EffectOf(env, b))
    decreases |a|
  {
    if a == [] {
      assert a + b == b;
    } else {
      EffectAppend(env, a[1..], b);
      assert (a + b)[0] == a[0] && (a + b)[1..] == a[1..] + b;
      ThenAssoc(EffectOfOne(env, a[0]), EffectOf(env, a[1..]), EffectOf(env, b));
    }
  }

  function Keys(slots: seq<Slot>): (r: seq<string>)
    ensures |r| == |slots| && forall k :: 0 <= k < |r| ==> r[k] == slots[k].key
  {
    seq(|slots|, k requires 0 <= k < |slots| => slots[k].key)
  }

  /** The index of the first leaf that does not resolve, or the number of leaves. */
  function FirstFailing(env: Env, slots: seq<Slot>): (f: nat)
    requires AllLeaves(slots)
    ensures f <= |slots|
    ensures forall k :: 0 <= k < f ==> Resolve(env, slots[k]).Ok?
    ensures f < |slots| ==> Resolve(env, slots[f]).Err?
  {
    if slots == [] || Resolve(env, slots[0]).Err? then 0 else 1 + FirstFailing(env, slots[1..])
  }

  /** The error is that of the first leaf that does not resolve, and there is one iff such a
      leaf exists. */
  lemma {:induction false} EffectError(env: Env, slots: seq<Slot>)
    requires AllLeaves(slots)
    ensures var err, f := EffectOf(env, slots).err, FirstFailing(env, slots);
            if f == |slots| then err == None else err.Some? && Resolve(env, slots[f]) == Err(err.value)
  {
    if slots != [] && Resolve(env, slots[0]).Ok? {
      EffectError(env, slots[1..]);
    }
  }

  /** Loading asks for the keys of the leaves in order, up to and including that leaf. */
  lemma {:induction false} EffectAsked(env: Env, slots: seq<Slot>)
    requires AllLeaves(slots)
    ensures var f := FirstFailing(env, slots);
            EffectOf(env, slots).asked == Keys(slots)[..if f == |slots| then f else f + 1]
  {
    if slots != [] {
      var rest := slots[1..];
      KeysStep(slots, FirstFailing(env, rest));
      if Resolve(env, slots[0]).Ok? {
        EffectAsked(env, rest);
      }
    }
  }

  lemma {:induction false} KeysStep(slots: seq<Slot>, f: nat)
    requires slots != []
    ensures Keys(slots) == [slots[0].key] + Keys(slots[1..])
    ensures Keys(slots)[..1] == [slots[0].key]
    ensures f < |slots| - 1 ==> Keys(slots)[..f + 2] == [slots[0].key] + Keys(slots[1..])[..f + 1]
  {
  }

  // ---------- the two traversals ----------

  /** The struct being filled, seen as the log of what was read for it and set in it. */
  class Target {
    var asked: seq<string>
    var stored: seq<(string, Value)>

    constructor ()
      ensures asked == [] && stored == []
    {
      asked, stored := [], [];
    }
  }

  method LoadLeaf(target: Target, f: Field, key: string, env: Env) returns (err: Option<LoadError>)
    requires f.Leaf?
    modifies target
    ensures Effect(err, target.asked, target.stored) ==
            Then(Effect(None, old(target.asked), old(target.stored)), EffectOf(env, [Slot(key, f)]))
  {
    target.asked := target.asked + [key];
    match env.read(key) {
      case Some(raw) =>
        match env.parse(f.kind, raw) {
          case None => return Some(BadValue(key));
          case Some(v) => target.stored := target.stored + [(key, v)];
        }
      case None =>
        if f.default != "" {
          match env.parse(f.kind, f.default) {
            case None => return Some(BadDefault(key));
            case Some(v) => target.stored := target.stored + [(key, v)];
          }
        } else if !f.optional {
          return Some(Missing(key));
        }
    }
    return None;
  }

  /** How the effect of the fields before i, of field i, and of the whole tree fit together. */
  lemma {:induction false} EffectStep(l: Letters, env: Env, fields: seq<Field>, i: nat, prefix: string)
    requires i < |fields|
    ensures AllLeaves(Slots(l, fields[..i], prefix)) && AllLeaves(SlotsOf(l, fields[i], prefix))
    ensures AllLeaves(Slots(l, fields[..i + 1], prefix)) && AllLeaves(Slots(l, fields, prefix))
    ensures var before, own := EffectOf(env, Slots(l, fields[..i], prefix)), EffectOf(env, SlotsOf(l, fields[i], prefix));
            && EffectOf(env, Slots(l, fields[..i + 1], prefix)) == Then(before, own)
            && (Then(before, own).err.Some? ==> EffectOf(env, Slots(l, fields, prefix)) == Then(before, own))
  {
    SlotsAreLeaves(l, fields[..i], prefix);
    SlotsOfAreLeaves(l, fields[i], prefix);
    SlotsAreLeaves(l, fields[i + 1..], prefix);
    SlotsAt(l, fields, i, prefix);
    EffectAppend(env, Slots(l, fields[..i], prefix), SlotsOf(l, fields[i], prefix));
    EffectAppend(env, Slots(l, fields[..i + 1], prefix), Slots(l, fields[i + 1..], prefix));
  }

  /** The body of load's loop. */
  method LoadField(l: Letters, target: Target, field: Field, prefix: string, env: Env) returns (err: Option<LoadError>)
    modifies target
    ensures AllLeaves(SlotsOf(l, field, prefix))
    ensures Effect(err, target.asked, target.stored) ==
            Then(Effect(None, old(target.asked), old(target.stored)), EffectOf(env, SlotsOf(l, field, prefix)))
    decreases field, 1
  {
    SlotsOfAreLeaves(l, field, prefix);
    if !field.exported {
      return None;
    }
    var key := BuildKey(l, prefix, field.name);
    if field.Struct? {
      err := Load(l, target, field.fields, key, env);
    } else {
      err := LoadLeaf(target, field, key, env);
    }
  }

  method Load(l: Letters, target: Target, fields: seq<Field>, prefix: string, env: Env) returns (err: Option<LoadError>)
    modifies target
    ensures AllLeaves(Slots(l, fields, prefix))
    ensures Effect(err, target.asked, target.stored) ==
            Then(Effect(None, old(target.asked), old(target.stored)), EffectOf(env, Slots(l, fields, prefix)))
    decreases fields, 0
  {
    SlotsAreLeaves(l, fields, prefix);
    ghost var start := Effect(None, target.asked, target.stored);
    for i := 0 to |fields|
      invariant AllLeaves(Slots(l, fields[..i], prefix))
      invariant Effect(None, target.asked, target.stored) == Then(start, EffectOf(env, Slots(l, fields[..i], prefix)))
    {
      EffectStep(l, env, fields, i, prefix);
      ThenAssoc(start, EffectOf(env, Slots(l, fields[..i], prefix)), EffectOf(env, SlotsOf(l, fields[i], prefix)));
      err := LoadField(l, target, fields[i], prefix, env);
      if err.Some? {
        return;
      }
    }
    assert fields[..|fields|] == fields;
    return None;
  }

  /** Load on its own struct, from the empty prefix. */
  method LoadAll(l: Letters, fields: seq<Field>, env: Env) returns (target: Target, err: Option<LoadError>)
    ensures AllLeaves(Slots(l, fields, "")) && fresh(target)
    ensures exists n: nat :: n <= |Slots(l, fields, "")| &&
                             Fills(env, Slots(l, fields, ""), Effect(err, target.asked, target.stored), n)
    ensures err == None <==> forall k :: 0 <= k < |Slots(l, fields, "")| ==> Fillable(env, Slots(l, fields, "")[k])
  {
    target := new Target();
    err := Load(l, target, fields, "", env);
    ghost var slots := Slots(l, fields, "");
    ghost var n := LoadFills(env, slots);
    assert Effect(err, target.asked, target.stored) == EffectOf(env, slots);
    assert Fills(env, slots, Effect(err, target.asked, target.stored), n);
  }

  datatype FieldInfo = FieldInfo(key: string, hasDefault: bool, default: string, sourceKey: string)

  function InfoOf(slot: Slot, formatKey: string -> string): FieldInfo
    requires slot.leaf.Leaf?
  {
    FieldInfo(slot.key, slot.leaf.default != "", slot.leaf.default, formatKey(slot.key))
  }

  function Infos(slots: seq<Slot>, formatKey: string -> string): (r: seq<FieldInfo>)
    requires AllLeaves(slots)
    ensures |r| == |slots| && forall k :: 0 <= k < |r| ==> r[k] == InfoOf(slots[k], formatKey)
  {
    if slots == [] then [] else [InfoOf(slots[0], formatKey)] + Infos(slots[1..], formatKey)
  }

  /** The slice that collectFields appends to. */
  class InfoList {
    var items: seq<FieldInfo>

    constructor ()
      ensures items == []
    {
      items := [];
    }
  }

  /** What the listing shows of the k-th leaf. */
  lemma {:induction false} InfoMeaning(slots: seq<Slot>, formatKey: string -> string, k: nat)
    requires AllLeaves(slots) && k < |slots|
    ensures var info, leaf := Infos(slots, formatKey)[k], slots[k].leaf;
            && info.key == slots[k].key && info.sourceKey == formatKey(slots[k].key)
            && info.default == leaf.default && (info.hasDefault <==> leaf.default != "")
  {
  }

  lemma {:induction false} InfosAppend(a: seq<Slot>, b: seq<Slot>, formatKey: string -> string)
    requires AllLeaves(a) && AllLeaves(b)
    ensures AllLeaves(a + b) && Infos(a + b, formatKey) == Infos(a, formatKey) + Infos(b, formatKey)
  {
  }

  lemma {:induction false} InfosStep(l: Letters, fields: seq<Field>, i: nat, prefix: string, formatKey: string -> string, start: seq<FieldInfo>)
    requires i < |fields|
    ensures AllLeaves(Slots(l, fields[..i], prefix)) && AllLeaves(SlotsOf(l, fields[i], prefix))
    ensures AllLeaves(Slots(l, fields[..i + 1], prefix))
    ensures start + Infos(Slots(l, fields[..i + 1], prefix), formatKey) ==
            (start + Infos(Slots(l, fields[..i], prefix), formatKey)) + Infos(SlotsOf(l, fields[i], prefix), formatKey)
  {
    SlotsAreLeaves(l, fields[..i], prefix);
    SlotsOfAreLeaves(l, fields[i], prefix);
    SlotsAt(l, fields, i, prefix);
    var before, own := Slots(l, fields[..i], prefix), SlotsOf(l, fields[i], prefix);
    InfosAppend(before, own, formatKey);
    Assoc(start, Infos(before, formatKey), Infos(own, formatKey));
  }

  /** The body of collectFields's loop. */
  method CollectField(l: Letters, out: InfoList, field: Field, prefix: string, formatKey: string -> string)
    modifies out
    ensures AllLeaves(SlotsOf(l, field, prefix))
    ensures out.items == old(out.items) + Infos(SlotsOf(l, field, prefix), formatKey)
    decreases field, 1
  {
    SlotsOfAreLeaves(l, field, prefix);
    if !field.exported {
      return;
    }
    var key := BuildKey(l, prefix, field.name);
    if field.Struct? {
      CollectFields(l, out, field.fields, key, formatKey);
    } else {
      out.items := out.items + [FieldInfo(key, field.default != "", field.default, formatKey(key))];
    }
  }

  method CollectFields(l: Letters, out: InfoList, fields: seq<Field>, prefix: string, formatKey: string -> string)
    modifies out
    ensures AllLeaves(Slots(l, fields, prefix))
    ensures out.items == old(out.items) + Infos(Slots(l, fields, prefix), formatKey)
    decreases fields, 0
  {
    SlotsAreLeaves(l, fields, prefix);
    ghost var start := out.items;
    for i := 0 to |fields|
      invariant AllLeaves(Slots(l, fields[..i], prefix))
      invariant out.items == start + Infos(Slots(l, fields[..i], prefix), formatKey)
    {
      InfosStep(l, fields, i, prefix, formatKey, start);
      CollectField(l, out, fields[i], prefix, formatKey);
    }
    assert fields[..|fields|] == fields;
  }

  /** A leaf can be filled: the source has a parsable value, or has none and the default is
      parsable, or there is neither value nor default and the leaf is optional. */
  ghost predicate Fillable(env: Env, slot: Slot)
    requires slot.leaf.Leaf?
  {
    var raw, f := env.read(slot.key), slot.leaf;
    || (raw.Some? && env.parse(f.kind, raw.value).Some?)
    || (raw.None? && f.default != "" && env.parse(f.kind, f.default).Some?)
    || (raw.None? && f.default == "" && f.optional)
  }

  /** stored is what filling the leaves one after the other leaves behind: the parsed source value
      where there is one, else the parsed default where that is not empty, else nothing. */
  ghost predicate StoresFor(env: Env, slots: seq<Slot>, stored: seq<(string, Value)>)
    requires AllLeaves(slots)
  {
    if slots == [] then stored == []
    else
      var key, f := slots[0].key, slots[0].leaf;
      match env.read(key)
      case Some(raw) => stored != [] && env.parse(f.kind, raw) == Some(stored[0].1) && stored[0].0 == key
                        && StoresFor(env, slots[1..], stored[1..])
      case None =>
        if f.default == "" then StoresFor(env, slots[1..], stored)
        else stored != [] && env.parse(f.kind, f.default) == Some(stored[0].1) && stored[0].0 == key
             && StoresFor(env, slots[1..], stored[1..])
  }

  /** e is why the leaf cannot be filled. */
  ghost predicate FailsOn(env: Env, slot: Slot, e: LoadError)
    requires slot.leaf.Leaf?
  {
    var raw, f := env.read(slot.key), slot.leaf;
    match e
    case BadValue(key) => key == slot.key && raw.Some? && env.parse(f.kind, raw.value).None?
    case BadDefault(key) => key == slot.key && raw.None? && f.default != "" && env.parse(f.kind, f.default).None?
    case Missing(key) => key == slot.key && raw.None? && f.default == "" && !f.optional
  }

  /** Loading has filled the first n leaves, and then stopped at the next one unless they are all. */
  ghost predicate Fills(env: Env, slots: seq<Slot>, e: Effect, n: nat)
    requires AllLeaves(slots) && n <= |slots|
  {
    && (forall k :: 0 <= k < n ==> Fillable(env, slots[k]))
    && StoresFor(env, slots[..n], e.stored)
    && (if n == |slots| then e.err == None else e.err.Some? && FailsOn(env, slots[n], e.err.value))
    && |e.asked| == (if n == |slots| then n else n + 1)
    && (forall k :: 0 <= k < |e.asked| ==> e.asked[k] == slots[k].key)
  }

  /** What loading does, in terms of the source, the parser and the tags alone: it fills the leaves
      in order, up to the first that cannot be filled. */
  lemma {:induction false} LoadFills(env: Env, slots: seq<Slot>) returns (n: nat)
    requires AllLeaves(slots)
    ensures n <= |slots| && Fills(env, slots, EffectOf(env, slots), n)
    ensures n < |slots| ==> !Fillable(env, slots[n])
  {
    if slots == [] {
      n := 0;
    } else if Fillable(env, slots[0]) {
      var rest := slots[1..];
      n := LoadFills(env, rest);
      n := n + 1;
      FirstFilled(env, slots, n);
    } else {
      n := 0;
      assert slots[..0] == [];
    }
  }

  lemma {:induction false} FirstFilled(env: Env, slots: seq<Slot>, n: nat)
    requires AllLeaves(slots) && slots != [] && 0 < n <= |slots| && Fillable(env, slots[0])
    requires Fills(env, slots[1..], EffectOf(env, slots[1..]), n - 1)
    ensures Fills(env, slots, EffectOf(env, slots), n)
  {
    var e, rest := EffectOf(env, slots), EffectOf(env, slots[1..]);
    assert e == Then(EffectOfOne(env, slots[0]), rest);
    FilledFirst(env, slots[0], rest);
    StoredFirst(env, slots, n, rest.stored, e.stored);
    forall k | 0 <= k < n ensures Fillable(env, slots[k]) {
      if k > 0 { assert slots[k] == slots[1..][k - 1]; }
    }
    forall k | 0 <= k < |e.asked| ensures e.asked[k] == slots[k].key {
      if k > 0 { assert e.asked[k] == rest.asked[k - 1] == slots[1..][k - 1].key; }
    }
    assert n < |slots| ==> slots[n] == slots[1..][n - 1];
  }

  lemma {:induction false} StoredFirst(env: Env, slots: seq<Slot>, n: nat, rest: seq<(string, Value)>,
                                       stored: seq<(string, Value)>)
    requires AllLeaves(slots) && 0 < n <= |slots| && StoresFor(env, slots[1..][..n - 1], rest)
    requires var key, f := slots[0].key, slots[0].leaf;
             match env.read(key)
             case Some(raw) => env.parse(f.kind, raw).Some? && stored == [(key, env.parse(f.kind, raw).value)] + rest
             case None =>
               if f.default == "" then stored == rest
               else env.parse(f.kind, f.default).Some? && stored == [(key, env.parse(f.kind, f.default).value)] + rest
    ensures StoresFor(env, slots[..n], stored)
  {
    assert slots[..n][1..] == slots[1..][..n - 1] && slots[..n][0] == slots[0];
    assert stored == rest || (stored != [] && stored[0].0 == slots[0].key && stored[1..] == rest);
  }

  /** The effect of a leaf that can be filled. */
  lemma FilledFirst(env: Env, slot: Slot, rest: Effect)
    requires slot.leaf.Leaf? && Fillable(env, slot)
    ensures var e := Then(EffectOfOne(env, slot), rest);
            && e.err == rest.err && e.asked == [slot.key] + rest.asked
            && match env.read(slot.key)
               case Some(raw) => e.stored == [(slot.key, env.parse(slot.leaf.kind, raw).value)] + rest.stored
               case None =>
                 if slot.leaf.default == "" then e.stored == rest.stored
                 else e.stored == [(slot.key, env.parse(slot.leaf.kind, slot.leaf.default).value)] + rest.stored
  {
  }

  lemma FillableResolves(env: Env, slot: Slot)
    requires slot.leaf.Leaf?
    ensures Fillable(env, slot) <==> Resolve(env, slot).Ok?
  {
  }

  /** Load and Fields agree: the keys that loading asks for are the first keys that listing
      shows, and all of them when loading succeeds, which it does iff every listed leaf can be
      filled. */
  lemma {:induction false} LoadAgreesWithFields(l: Letters, env: Env, fields: seq<Field>, prefix: string, formatKey: string -> string)
    ensures AllLeaves(Slots(l, fields, prefix))
    ensures var slots := Slots(l, fields, prefix);
            var e, infos := EffectOf(env, slots), Infos(slots, formatKey);
            && |e.asked| <= |infos|
            && (forall k :: 0 <= k < |e.asked| ==> e.asked[k] == infos[k].key)
            && (e.err.None? <==> forall k :: 0 <= k < |slots| ==> Fillable(env, slots[k]))
            && (e.err.None? ==> |e.asked| == |infos|)
  {
    SlotsAreLeaves(l, fields, prefix);
    var slots := Slots(l, fields, prefix);
    EffectError(env, slots);
    EffectAsked(env, slots);
    forall k | 0 <= k < |slots| ensures Fillable(env, slots[k]) <==> Resolve(env, slots[k]).Ok? {
      FillableResolves(env, slots[k]);
    }
  }
}
