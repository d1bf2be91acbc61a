/** lib/config's conversion of Go field names to snake case, and what it means on ASCII text. */
module CamelSnake {
  import opened Sequences

  predicate Upper(c: char) { 'A' <= c <= 'Z' }

  predicate Lower(c: char) { 'a' <= c <= 'z' }

  predicate Ascii(s: string) { forall i :: 0 <= i < |s| ==> s[i] < 128 as char }

  function ToLower(c: char): char
  {
    if Upper(c) then (c as int + 32) as char else c
  }

  /** An underscore goes before position i of s. */
  predicate Break(s: string, i: nat)
    requires i < |s|
  {
    i > 0 && Upper(s[i]) &&
    (Lower(s[i - 1]) || (Upper(s[i - 1]) && i + 1 < |s| && Lower(s[i + 1])))
  }

  function SnakeFrom(s: string, i: nat): string
    requires i <= |s|
    decreases |s| - i
  {
    if i == |s| then ""
    else (if Break(s, i) then "_" else "") + [ToLower(s[i])] + SnakeFrom(s, i + 1)
  }

  function Snake(s: string): string { SnakeFrom(s, 0) }

  // ---------- the loop, for any letter tables ----------

  /** The letter tables of the text's alphabet. */
  datatype Letters = Letters(upper: char -> bool, lower: char -> bool, toLower: char -> char)

  /** The tables extend the ASCII ones. */
  ghost predicate ExtendsAscii(l: Letters)
  {
    forall c: char :: c < 128 as char ==>
      l.upper(c) == Upper(c) && l.lower(c) == Lower(c) && l.toLower(c) == ToLower(c)
  }

  predicate BreakBy(l: Letters, s: string, i: nat)
    requires i < |s|
  {
    i > 0 && l.upper(s[i]) &&
    (l.lower(s[i - 1]) || (l.upper(s[i - 1]) && i + 1 < |s| && l.lower(s[i + 1])))
  }

  /** What the first i characters of s turn into. */
  function SnakeBy(l: Letters, s: string, i: nat): string
    requires i <= |s|
  {
    if i == 0 then ""
    else SnakeBy(l, s, i - 1) + (if BreakBy(l, s, i - 1) then "_" else "") + [l.toLower(s[i - 1])]
  }

  /** The conversion under any tables. */
  function ToSnake(l: Letters, s: string): string { SnakeBy(l, s, |s|) }

  lemma {:induction false} SnakeByAscii(l: Letters, s: string, i: nat)
    requires ExtendsAscii(l) && Ascii(s) && i <= |s|
    ensures SnakeBy(l, s, i) + SnakeFrom(s, i) == Snake(s)
  {
    if i > 0 {
      SnakeByAscii(l, s, i - 1);
      assert BreakBy(l, s, i - 1) == Break(s, i - 1);
      OneCharacter(s, i - 1, SnakeBy(l, s, i - 1));
    }
  }

  method CamelToSnake(s: string, l: Letters) returns (result: string)
    ensures result == ToSnake(l, s)
    ensures ExtendsAscii(l) && Ascii(s) ==> result == Snake(s)
  {
    result := "";
    for i := 0 to |s|
      invariant result == SnakeBy(l, s, i)
    {
      var r := s[i];
      if i > 0 && l.upper(r) {
        var prev := s[i - 1];
        if l.lower(prev) {
          result := result + ['_'];
        } else if l.upper(prev) && i + 1 < |s| && l.lower(s[i + 1]) {
          result := result + ['_'];
        }
      }
      result := result + [l.toLower(r)];
    }
    if ExtendsAscii(l) && Ascii(s) { ToSnakeAscii(l, s); }
  }

  lemma {:induction false} ToSnakeAscii(l: Letters, s: string)
    requires ExtendsAscii(l) && Ascii(s)
    ensures ToSnake(l, s) == Snake(s)
  {
    SnakeByAscii(l, s, |s|);
    assert SnakeFrom(s, |s|) == "";
  }

  /** The output brings no character of its own but the underscore and lowered letters. */
  lemma {:induction false} SnakeByAdds(l: Letters, s: string, i: nat, c: char)
    requires i <= |s| && c != '_' && forall k :: 0 <= k < i ==> l.toLower(s[k]) != c
    ensures c !in SnakeBy(l, s, i) && (i > 0 ==> SnakeBy(l, s, i) != "")
  {
    if i > 0 { SnakeByAdds(l, s, i - 1, c); }
  }

  lemma {:induction false} OneCharacter(s: string, i: nat, before: string)
    requires i < |s|
    ensures before + SnakeFrom(s, i) ==
            before + (if Break(s, i) then "_" else "") + [ToLower(s[i])] + SnakeFrom(s, i + 1)
  {
  }

  // ---------- joining and splitting ----------

  function Join(parts: seq<string>, sep: char): string
  {
    if parts == [] then ""
    else if |parts| == 1 then parts[0]
    else parts[0] + [sep] + Join(parts[1..], sep)
  }

  function Split(s: string, sep: char): (parts: seq<string>)
    ensures parts != []
  {
    if s == "" then [""]
    else
      var rest := Split(s[1..], sep);
      if s[0] == sep then [""] + rest else [[s[0]] + rest[0]] + rest[1..]
  }

  lemma {:induction false} SplitPart(p: string, s: string, sep: char)
    requires sep !in p
    ensures Split(p, sep) == [p]
    ensures Split(p + [sep] + s, sep) == [p] + Split(s, sep)
  {
    if p == "" {
      assert (p + [sep] + s)[1..] == s;
    } else {
      SplitPart(p[1..], s, sep);
      assert (p + [sep] + s)[1..] == p[1..] + [sep] + s;
      assert [p[0]] + p[1..] == p;
    }
  }

  /** Splitting recovers the parts of a join when no part contains the separator. */
  lemma {:induction false} SplitJoin(parts: seq<string>, sep: char)
    requires parts != [] && forall k :: 0 <= k < |parts| ==> sep !in parts[k]
    ensures Split(Join(parts, sep), sep) == parts
  {
    if |parts| == 1 {
      SplitPart(parts[0], "", sep);
    } else {
      SplitPart(parts[0], Join(parts[1..], sep), sep);
      SplitJoin(parts[1..], sep);
    }
  }

  lemma {:induction false} JoinAppend(parts: seq<string>, p: string, sep: char)
    ensures Join(parts + [p], sep) == if parts == [] then p else Join(parts, sep) + [sep] + p
  {
    if parts == [] {
      assert parts + [p] == [p];
    } else {
      JoinAppend(parts[1..], p, sep);
      assert (parts + [p])[1..] == parts[1..] + [p];
    }
  }

  // ---------- Pascal case ----------

  predicate Capitalised(w: string)
  {
    |w| >= 2 && Upper(w[0]) && forall k :: 1 <= k < |w| ==> Lower(w[k])
  }

  predicate Acronym(w: string)
  {
    |w| >= 1 && forall k :: 0 <= k < |w| ==> Upper(w[k])
  }

  predicate Words(ws: seq<string>)
  {
    forall k :: 0 <= k < |ws| ==> Capitalised(ws[k]) || Acronym(ws[k])
  }

  /** Words that are capitalised or acronyms, with no two acronyms side by side. */
  predicate PascalWords(ws: seq<string>)
  {
    && Words(ws)
    && (forall k :: 0 <= k < |ws| - 1 ==> Capitalised(ws[k]) || Capitalised(ws[k + 1]))
  }

  function Concat(ws: seq<string>): string
  {
    if ws == [] then "" else ws[0] + Concat(ws[1..])
  }

  function LowerCase(w: string): (r: string)
    ensures |r| == |w| && forall k :: 0 <= k < |w| ==> r[k] == ToLower(w[k])
  {
    seq(|w|, k requires 0 <= k < |w| => ToLower(w[k]))
  }

  function LowerWords(ws: seq<string>): (r: seq<string>)
    ensures |r| == |ws| && forall k :: 0 <= k < |ws| ==> r[k] == LowerCase(ws[k])
  {
    seq(|ws|, k requires 0 <= k < |ws| => LowerCase(ws[k]))
  }

  /** A stretch without breaks is only lowered. */
  lemma {:induction false} NoBreaks(s: string, i: nat, e: nat)
    requires i <= e <= |s| && forall j :: i <= j < e ==> !Break(s, j)
    ensures SnakeFrom(s, i) == LowerCase(s[i..e]) + SnakeFrom(s, e)
    decreases e - i
  {
    if i < e {
      NoBreaks(s, i + 1, e);
      LowerHead(s, i, e);
      OneUnbroken(s, i);
      Assoc([ToLower(s[i])], LowerCase(s[i + 1..e]), SnakeFrom(s, e));
    } else {
      assert LowerCase(s[i..e]) == "";
    }
  }

  lemma {:induction false} OneUnbroken(s: string, i: nat)
    requires i < |s| && !Break(s, i)
    ensures SnakeFrom(s, i) == [ToLower(s[i])] + SnakeFrom(s, i + 1)
  {
  }

  /** Word w stands at position i of s, at the end or before an upper-case letter. */
  predicate WordAt(s: string, i: nat, w: string)
  {
    && i + |w| <= |s|
    && (forall k :: 0 <= k < |w| ==> s[i + k] == w[k])
    && (i + |w| < |s| ==> Upper(s[i + |w|]))
  }

  /** What may come before word w. */
  predicate MayPrecede(s: string, i: nat, w: string)
    requires i <= |s|
  {
    i > 0 ==> Lower(s[i - 1]) || (Upper(s[i - 1]) && Capitalised(w))
  }

  lemma {:induction false} NoneInside(s: string, i: nat, w: string, j: nat)
    requires WordAt(s, i, w) && (Capitalised(w) || Acronym(w)) && i < j < i + |w|
    ensures !Break(s, j)
  {
    assert s[j] == s[i + (j - i)] == w[j - i];
    assert s[j - 1] == s[i + (j - 1 - i)] == w[j - 1 - i];
    if j + 1 < i + |w| { assert s[j + 1] == s[i + (j + 1 - i)] == w[j + 1 - i]; }
  }

  lemma {:induction false} OneBefore(s: string, i: nat, w: string)
    requires WordAt(s, i, w) && (Capitalised(w) || Acronym(w)) && MayPrecede(s, i, w)
    ensures i > 0 <==> Break(s, i)
  {
    assert s[i] == s[i + 0] == w[0];
    if Capitalised(w) { assert s[i + 1] == w[1]; }
  }

  /** One word of a name: a break before it unless it comes first, none inside. */
  lemma {:induction false} OneWord(s: string, i: nat, w: string)
    requires WordAt(s, i, w) && (Capitalised(w) || Acronym(w)) && MayPrecede(s, i, w)
    ensures SnakeFrom(s, i) == (if i > 0 then "_" else "") + LowerCase(w) + SnakeFrom(s, i + |w|)
  {
    var e := i + |w|;
    OneBefore(s, i, w);
    forall j | i + 1 <= j < e ensures !Break(s, j) {
      NoneInside(s, i, w, j);
    }
    NoBreaks(s, i + 1, e);
    assert s[i..e] == w;
    LowerHead(s, i, e);
    Regroup(if i > 0 then "_" else "", [ToLower(s[i])], LowerCase(s[i + 1..e]), SnakeFrom(s, e));
  }

  lemma {:induction false} Regroup(a: string, b: string, c: string, d: string)
    ensures (a + b) + (c + d) == a + (b + c) + d
    ensures a + b + (c + d) == a + (b + c + d)
  {
  }

  lemma {:induction false} LowerHead(s: string, i: nat, e: nat)
    requires i < e <= |s|
    ensures LowerCase(s[i..e]) == [ToLower(s[i])] + LowerCase(s[i + 1..e])
  {
  }

  lemma {:induction false} PascalTail(ws: seq<string>)
    requires PascalWords(ws) && |ws| > 1
    ensures PascalWords(ws[1..]) && (Capitalised(ws[0]) || Capitalised(ws[1]))
  {
    var rest := ws[1..];
    assert Capitalised(ws[0]) || Capitalised(ws[0 + 1]);
    forall k | 0 <= k < |rest| - 1 ensures Capitalised(rest[k]) || Capitalised(rest[k + 1]) {
      assert Capitalised(ws[k + 1]) || Capitalised(ws[k + 1 + 1]);
    }
  }

  /** The first word of a name stands where the name starts, and its last letter is where the
      rest starts. */
  lemma {:induction false} FirstWord(s: string, i: nat, ws: seq<string>)
    requires i <= |s| && s[i..] == Concat(ws) && ws != [] && PascalWords(ws)
    ensures WordAt(s, i, ws[0]) && s[i + |ws[0]|..] == Concat(ws[1..])
    ensures |ws| > 1 ==> MayPrecede(s, i + |ws[0]|, ws[1])
  {
    var w, rest := ws[0], ws[1..];
    var e := i + |w|;
    assert s[i..] == w + Concat(rest);
    forall k | 0 <= k < |w| ensures s[i + k] == w[k] {
      assert s[i..][k] == s[i + k];
    }
    assert s[e..] == s[i..][|w|..] == Concat(rest);
    assert s[e - 1] == s[i + (|w| - 1)] == w[|w| - 1];
    if rest != [] {
      PascalTail(ws);
      assert rest[0] == ws[1];
      assert s[e] == s[e..][0] == rest[0][0];
    }
  }

  lemma {:induction false} JoinWords(ws: seq<string>)
    requires ws != []
    ensures Join(LowerWords(ws), '_') == LowerCase(ws[0]) + if |ws| == 1 then "" else "_" + Join(LowerWords(ws[1..]), '_')
  {
    assert LowerWords(ws)[1..] == LowerWords(ws[1..]);
  }

  /** A name read from position i on, where a word starts. */
  lemma {:induction false} WordsFrom(s: string, i: nat, ws: seq<string>)
    requires i <= |s| && s[i..] == Concat(ws) && ws != [] && PascalWords(ws)
    requires MayPrecede(s, i, ws[0])
    ensures SnakeFrom(s, i) == (if i > 0 then "_" else "") + Join(LowerWords(ws), '_')
    decreases |ws|
  {
    var rest := ws[1..];
    var e := i + |ws[0]|;
    FirstWord(s, i, ws);
    OneWord(s, i, ws[0]);
    JoinWords(ws);
    if rest != [] {
      PascalTail(ws);
      assert rest[0] == ws[1];
      WordsFrom(s, e, rest);
    } else {
      assert SnakeFrom(s, e) == "";
    }
    Assoc(if i > 0 then "_" else "", LowerCase(ws[0]), SnakeFrom(s, e));
  }

  /** The words as a reader of the name sees them: acronyms side by side are one. */
  function Merge(ws: seq<string>): seq<string>
  {
    if |ws| <= 1 then ws
    else
      var rest := Merge(ws[1..]);
      if rest != [] && Acronym(ws[0]) && Acronym(rest[0]) then [ws[0] + rest[0]] + rest[1..] else [ws[0]] + rest
  }

  lemma {:induction false} PascalCons(w: string, ws: seq<string>)
    requires PascalWords(ws) && (Capitalised(w) || Acronym(w))
    requires ws != [] ==> Capitalised(w) || Capitalised(ws[0])
    ensures PascalWords([w] + ws)
  {
    var all := [w] + ws;
    forall k | 0 <= k < |all| - 1 ensures Capitalised(all[k]) || Capitalised(all[k + 1]) {
      if k > 0 { assert Capitalised(ws[k - 1]) || Capitalised(ws[k - 1 + 1]); }
    }
  }

  lemma {:induction false} AcronymsJoin(v: string, w: string)
    requires Acronym(v)
    ensures Acronym(w) ==> Acronym(v + w)
  {
  }

  lemma {:induction false} PascalHead(w: string, ws: seq<string>)
    requires ws != [] && PascalWords(ws) && Acronym(w) && Acronym(ws[0])
    ensures PascalWords([w + ws[0]] + ws[1..])
  {
    AcronymsJoin(w, ws[0]);
    AcronymOrNot(ws[0]);
    if |ws| > 1 { PascalTail(ws); }
    PascalCons(w + ws[0], ws[1..]);
  }

  /** Merging keeps the name, leaves no acronyms side by side, and shortens the list unless there
      were none. */
  lemma {:induction false} MergeKeeps(ws: seq<string>)
    requires ws != [] && Words(ws)
    ensures Merge(ws) != [] && PascalWords(Merge(ws)) && Concat(Merge(ws)) == Concat(ws)
    ensures Acronym(Merge(ws)[0]) <==> Acronym(ws[0])
    ensures if PascalWords(ws) then Merge(ws) == ws else |Merge(ws)| < |ws|
  {
    if |ws| > 1 {
      var w, rest := ws[0], Merge(ws[1..]);
      MergeKeeps(ws[1..]);
      if Acronym(w) && Acronym(rest[0]) {
        PascalHead(w, rest);
        AcronymsJoin(w, rest[0]);
        AcronymOrNot(w);
        AcronymOrNot(ws[1]);
        assert !(Capitalised(ws[0]) || Capitalised(ws[0 + 1]));
        ConcatHead(w, rest);
      } else {
        AcronymOrNot(w);
        AcronymOrNot(rest[0]);
        AcronymOrNot(ws[1]);
        PascalCons(w, rest);
        if PascalWords(ws) { PascalTail(ws); } else if PascalWords(ws[1..]) { PascalCons(w, ws[1..]); }
        assert [w] + ws[1..] == ws;
      }
    }
  }

  lemma {:induction false} AcronymOrNot(w: string)
    ensures !(Acronym(w) && Capitalised(w))
  {
    if |w| >= 2 { assert Acronym(w) ==> Upper(w[1]); }
  }

  lemma {:induction false} ConcatHead(w: string, ws: seq<string>)
    requires ws != []
    ensures Concat([w + ws[0]] + ws[1..]) == w + Concat(ws)
  {
    assert ([w + ws[0]] + ws[1..])[1..] == ws[1..];
    Assoc(w, ws[0], Concat(ws[1..]));
  }

  lemma {:induction false} PascalJoins(ws: seq<string>)
    requires ws != [] && PascalWords(ws)
    ensures Snake(Concat(ws)) == Join(LowerWords(ws), '_')
    ensures Split(Snake(Concat(ws)), '_') == LowerWords(ws)
  {
    WordsFrom(Concat(ws), 0, ws);
    forall k | 0 <= k < |ws| ensures '_' !in LowerWords(ws)[k] {
      var w := ws[k];
      assert forall j :: 0 <= j < |w| ==> Upper(w[j]) || Lower(w[j]);
    }
    SplitJoin(LowerWords(ws), '_');
  }

  /** Snake case inverts Pascal case: the name made of some words turns into those words in
      lower case, joined by underscores, with acronyms side by side run together; so splitting
      gives the words back iff no two acronyms are side by side. */
  lemma {:induction false} SnakeInvertsPascal(ws: seq<string>)
    requires ws != [] && Words(ws)
    ensures Snake(Concat(ws)) == Join(LowerWords(Merge(ws)), '_')
    ensures Split(Snake(Concat(ws)), '_') == LowerWords(ws) <==> PascalWords(ws)
  {
    MergeKeeps(ws);
    PascalJoins(Merge(ws));
  }

  // ---------- where the underscores go ----------

  lemma {:induction false} TailStays(s: string, t: string, i: nat)
    requires 1 <= i <= |t|
    ensures SnakeFrom(s + t, |s| + i) == SnakeFrom(t, i)
    decreases |t| - i
  {
    if i < |t| {
      TailStays(s, t, i + 1);
      assert Break(s + t, |s| + i) == Break(t, i);
    }
  }

  /** No break of s depends on what follows it. */
  ghost predicate Settled(s: string, t: string)
  {
    s != "" && t != "" && !(Upper(s[|s| - 1]) && Lower(t[0]))
  }

  lemma {:induction false} HeadStays(s: string, t: string, i: nat)
    requires Settled(s, t) && i <= |s|
    ensures SnakeFrom(s + t, i) == SnakeFrom(s, i) + SnakeFrom(s + t, |s|)
    decreases |s| - i
  {
    if i < |s| {
      HeadStays(s, t, i + 1);
      assert Break(s + t, i) == Break(s, i);
      Assoc((if Break(s, i) then "_" else "") + [ToLower(s[i])], SnakeFrom(s, i + 1), SnakeFrom(s + t, |s|));
    }
  }

  /** What comes between s and t in the conversion of s + t. */
  function Gap(s: string, t: string): string
    requires t != ""
  {
    if Break(s + t, |s|) then "_" else ""
  }

  lemma {:induction false} SnakeOfTail(s: string, t: string)
    requires t != ""
    ensures SnakeFrom(s + t, |s|) == Gap(s, t) + Snake(t)
  {
    TailStays(s, t, 1);
    assert SnakeFrom(s + t, |s|) == Gap(s, t) + [ToLower(t[0])] + SnakeFrom(t, 1);
    assert Snake(t) == "" + [ToLower(t[0])] + SnakeFrom(t, 1);
    Assoc(Gap(s, t), [ToLower(t[0])], SnakeFrom(t, 1));
  }

  lemma {:induction false} GapIs(s: string, t: string)
    requires s != "" && t != ""
    ensures var last, first := s[|s| - 1], t[0];
            Gap(s, t) ==
            if 'A' <= first <= 'Z' &&
               ('a' <= last <= 'z' || ('A' <= last <= 'Z' && |t| >= 2 && 'a' <= t[1] <= 'z')) then "_" else ""
  {
    assert (s + t)[|s|] == t[0] && (s + t)[|s| - 1] == s[|s| - 1];
    if |t| >= 2 { assert (s + t)[|s| + 1] == t[1]; }
  }

  /** Where the underscores go, on the names themselves. Between two parts of a name there is one
      exactly where a capital follows a small letter, or a capital with a small letter behind it
      follows a capital; in particular none follows a digit. */
  lemma {:induction false} SnakeOfParts(s: string, t: string)
    requires Settled(s, t)
    ensures var last, first := s[|s| - 1], t[0];
            Snake(s + t) ==
            Snake(s) +
            (if 'A' <= first <= 'Z' &&
                ('a' <= last <= 'z' || ('A' <= last <= 'Z' && |t| >= 2 && 'a' <= t[1] <= 'z')) then "_" else "") +
            Snake(t)
  {
    HeadStays(s, t, 0);
    SnakeOfTail(s, t);
    Assoc(Snake(s), Gap(s, t), Snake(t));
    GapIs(s, t);
  }

  /** A single character is only lowered: capitals become small letters, and nothing else changes. */
  lemma SnakeOfOne(c: char)
    ensures |Snake([c])| == 1
    ensures var r := Snake([c])[0];
            if 'A' <= c <= 'Z' then r as int == c as int - 'A' as int + 'a' as int else r == c
  {
    assert SnakeFrom([c], 1) == "";
  }

  /** Names with acronyms and digits. */
  lemma SnakeExamples()
    ensures Snake("DbURL") == "db_url" && Snake("S3Key") == "s3key" && Snake("IDs") == "i_ds"
  {
    assert SnakeFrom("DbURL", 5) == "" && SnakeFrom("DbURL", 4) == "l" && SnakeFrom("DbURL", 3) == "rl";
    assert SnakeFrom("DbURL", 2) == "_url" && SnakeFrom("DbURL", 1) == "b_url";
    assert SnakeFrom("S3Key", 5) == "" && SnakeFrom("S3Key", 4) == "y" && SnakeFrom("S3Key", 3) == "ey";
    assert SnakeFrom("S3Key", 2) == "key" && SnakeFrom("S3Key", 1) == "3key";
    assert SnakeFrom("IDs", 3) == "" && SnakeFrom("IDs", 2) == "s" && SnakeFrom("IDs", 1) == "_ds";
  }

  // ---------- idempotence ----------

  predicate NoUpper(s: string) { forall k :: 0 <= k < |s| ==> !Upper(s[k]) }

  lemma {:induction false} SnakeHasNoUpper(s: string, i: nat)
    requires i <= |s|
    ensures NoUpper(SnakeFrom(s, i))
    decreases |s| - i
  {
    if i < |s| { SnakeHasNoUpper(s, i + 1); }
  }

  lemma {:induction false} NoUpperStays(s: string, i: nat)
    requires i <= |s| && NoUpper(s)
    ensures SnakeFrom(s, i) == s[i..]
    decreases |s| - i
  {
    if i < |s| { NoUpperStays(s, i + 1); }
  }

  lemma {:induction false} SnakeIdempotent(s: string)
    ensures Snake(Snake(s)) == Snake(s)
  {
    SnakeHasNoUpper(s, 0);
    NoUpperStays(Snake(s), 0);
  }
}
