/** The token reader of lab-2: a scanner over whitespace-separated words whose
    first failure sticks. */
module FileReading {
  import opened Wrappers

  datatype ReadError = Unparsable(word: string) | ScanFailed

  /** What a scanner delivers: its words in order, then either end of file or a read error. */
  datatype File = File(words: seq<string>, scanFails: bool)

  /** The partial integer parser applied to every word. */
  type Atoi = string -> Option<int>

  /** The mutable part of a reader: how many words were scanned, and the stored error. */
  datatype ReaderState = ReaderState(pos: nat, err: Option<ReadError>)

  const FRESH := ReaderState(0, None)

  /** One call of the reader: the new state, and the number if there was one. */
  function Advance(f: File, atoi: Atoi, r: ReaderState): (ReaderState, Option<int>)
    requires r.pos <= |f.words|
  {
    if r.err.Some? then
      (r, None)
    else if r.pos == |f.words| then
      (r.(err := if f.scanFails then Some(ScanFailed) else None), None)
    else
      match atoi(f.words[r.pos])
      case Some(v) => (ReaderState(r.pos + 1, None), Some(v))
      case None => (ReaderState(r.pos + 1, Some(Unparsable(f.words[r.pos]))), None)
  }

  /** The number of words before the first one that does not parse. */
  function GoodFrom(f: File, atoi: Atoi, from: nat): (g: nat)
    requires from <= |f.words|
    ensures from <= g <= |f.words|
    ensures forall k :: from <= k < g ==> atoi(f.words[k]).Some?
    ensures g < |f.words| ==> atoi(f.words[g]).None?
    decreases |f.words| - from
  {
    if from == |f.words| || atoi(f.words[from]).None? then from else GoodFrom(f, atoi, from + 1)
  }

  function Good(f: File, atoi: Atoi): (g: nat)
    ensures g <= |f.words|
    ensures forall k :: 0 <= k < g ==> atoi(f.words[k]).Some?
    ensures g < |f.words| ==> atoi(f.words[g]).None?
  {
    GoodFrom(f, atoi, 0)
  }

  function Number(f: File, atoi: Atoi, k: nat): int
    requires k < Good(f, atoi)
  {
    atoi(f.words[k]).value
  }

  /** The error a reader has stored once it has stopped; None after a clean end of file. */
  function Verdict(f: File, atoi: Atoi): Option<ReadError>
  {
    var g := Good(f, atoi);
    if g < |f.words| then Some(Unparsable(f.words[g]))
    else if f.scanFails then Some(ScanFailed)
    else None
  }

  ghost predicate AllParse(f: File, atoi: Atoi)
  {
    forall k :: 0 <= k < |f.words| ==> atoi(f.words[k]).Some?
  }

  /** The k-th word is the first that does not parse. */
  ghost predicate FirstBad(f: File, atoi: Atoi, k: nat)
  {
    k < |f.words| && atoi(f.words[k]).None? && forall j :: 0 <= j < k ==> atoi(f.words[j]).Some?
  }

  /** e is the error that reading f ends with: that of the first bad word, else that of the scan. */
  ghost predicate EndsWith(f: File, atoi: Atoi, e: Option<ReadError>)
  {
    && (e == None <==> !f.scanFails && AllParse(f, atoi))
    && (forall k: nat :: FirstBad(f, atoi, k) ==> e == Some(Unparsable(f.words[k])))
    && (AllParse(f, atoi) && f.scanFails ==> e == Some(ScanFailed))
  }

  lemma VerdictMeaning(f: File, atoi: Atoi)
    ensures EndsWith(f, atoi, Verdict(f, atoi))
    ensures forall k: nat :: FirstBad(f, atoi, k) ==> Good(f, atoi) == k
    ensures AllParse(f, atoi) <==> Good(f, atoi) == |f.words|
  {
  }

  /** The state of a reader that has delivered k numbers and has not failed. */
  function After(k: nat): ReaderState { ReaderState(k, None) }

  /** The state in which every reader of f ends up. */
  function Stopped(f: File, atoi: Atoi): (r: ReaderState)
  {
    var g := Good(f, atoi);
    ReaderState(if g < |f.words| then g + 1 else g, Verdict(f, atoi))
  }

  /** While good words remain the reader delivers them in order; then it stops with the
      file's verdict, and from then on every further call changes nothing. */
  lemma AdvanceDelivers(f: File, atoi: Atoi, k: nat)
    requires k <= Good(f, atoi)
    ensures k < Good(f, atoi) ==> Advance(f, atoi, After(k)) == (After(k + 1), Some(Number(f, atoi, k)))
    ensures k == Good(f, atoi) ==> Advance(f, atoi, After(k)) == (Stopped(f, atoi), None)
    ensures Advance(f, atoi, Stopped(f, atoi)) == (Stopped(f, atoi), None)
  {
    var g := Good(f, atoi);
    assert k == g < |f.words| ==> atoi(f.words[k]).None?;
  }

  /** The word scanner: each scan moves past one more word, until there is none. */
  class Scanner {
    const file: File
    var pos: nat

    ghost predicate Valid()
      reads this
    {
      pos <= |file.words|
    }

    constructor (file: File)
      ensures Valid() && this.file == file && pos == 0
    {
      this.file, pos := file, 0;
    }

    method Scan() returns (ok: bool)
      requires Valid()
      modifies this
      ensures Valid() && ok == (old(pos) < |file.words|) && pos == old(pos) + if ok then 1 else 0
    {
      ok := pos < |file.words|;
      if ok { pos := pos + 1; }
    }

    /** The word scanned last. */
    function Text(): string
      requires Valid() && pos > 0
      reads this
    {
      file.words[pos - 1]
    }

    /** A read error shows once all words have been scanned. */
    function Err(): Option<ReadError>
    {
      if file.scanFails then Some(ScanFailed) else None
    }
  }

  /** The reader object. */
  class FileReader {
    const scanner: Scanner
    const atoi: Atoi
    var err: Option<ReadError>

    ghost predicate Valid()
      reads this, scanner
    {
      scanner.Valid()
    }

    function State(): ReaderState
      reads this, scanner
    {
      ReaderState(scanner.pos, err)
    }

    constructor (file: File, atoi: Atoi)
      ensures Valid() && State() == FRESH && scanner.file == file && this.atoi == atoi
      ensures fresh(scanner)
    {
      scanner := new Scanner(file);
      this.atoi, err := atoi, None;
    }

    method Next() returns (value: int, ok: bool)
      requires Valid()
      modifies this, scanner
      ensures Valid()
      ensures var (r, n) := Advance(scanner.file, atoi, old(State()));
              State() == r && ok == n.Some? && (ok ==> value == n.value) && (!ok ==> value == 0)
      ensures old(err) != None ==> !ok && State() == old(State())
      ensures old(err) == None && old(scanner.pos) == |scanner.file.words| ==>
                !ok && scanner.pos == old(scanner.pos) && (err == None <==> !scanner.file.scanFails)
                && (scanner.file.scanFails ==> err == Some(ScanFailed))
      ensures old(err) == None && old(scanner.pos) < |scanner.file.words| ==>
                var word := scanner.file.words[old(scanner.pos)];
                && scanner.pos == old(scanner.pos) + 1 && ok == atoi(word).Some?
                && (ok ==> atoi(word) == Some(value) && err == None)
                && (!ok ==> err == Some(Unparsable(word)))
    {
      var scanned := false;
      if err == None {
        scanned := scanner.Scan();
      }
      if !scanned {
        if err == None {
          err := scanner.Err();
        }
        return 0, false;
      }
      match atoi(scanner.Text()) {
        case None =>
          err := Some(Unparsable(scanner.Text()));
          return 0, false;
        case Some(v) =>
          return v, true;
      }
    }

    method Err() returns (e: Option<ReadError>)
      ensures e == err
    {
      e := err;
    }
  }

  /** A worker's read loop on its own: it delivers exactly the numbers before the first bad
      word, and the error it finds afterwards is the file's verdict. */
  method ReadAll(file: File, atoi: Atoi) returns (numbers: seq<int>, e: Option<ReadError>)
    ensures |numbers| == Good(file, atoi) <= |file.words| && e == Verdict(file, atoi)
    ensures forall k :: 0 <= k < |numbers| ==> atoi(file.words[k]) == Some(numbers[k])
    ensures EndsWith(file, atoi, e)
    ensures forall k: nat :: FirstBad(file, atoi, k) ==> |numbers| == k
    ensures AllParse(file, atoi) ==> |numbers| == |file.words|
  {
    VerdictMeaning(file, atoi);
    var r := new FileReader(file, atoi);
    numbers := [];
    while true
      invariant r.Valid() && r.scanner.file == file && r.atoi == atoi && fresh(r.scanner)
      invariant |numbers| <= Good(file, atoi) && r.State() == After(|numbers|)
      invariant forall k :: 0 <= k < |numbers| ==> numbers[k] == Number(file, atoi, k)
      decreases Good(file, atoi) - |numbers|
    {
      AdvanceDelivers(file, atoi, |numbers|);
      var n, ok := r.Next();
      if !ok { break; }
      numbers := numbers + [n];
    }
    e := r.Err();
  }

  /** Counting scans every word, parsable or not. */
  method CountTokens(file: File) returns (n: nat, err: Option<ReadError>)
    ensures n == |file.words| && (err == None <==> !file.scanFails)
  {
    var sc := new Scanner(file);
    n := 0;
    var more := sc.Scan();
    while more
      invariant sc.Valid() && sc.file == file && fresh(sc)
      invariant sc.pos == n + (if more then 1 else 0) && (!more ==> n == |file.words|)
      decreases |file.words| - n, more
    {
      n := n + 1;
      more := sc.Scan();
    }
    err := sc.Err();
  }
}
