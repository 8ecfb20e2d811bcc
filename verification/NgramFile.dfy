/** Saving n-gram caches to files and loading them; a file is the sequence of 32-bit integers in it. */
module NgramFile {
  import opened Wrappers
  import opened NgramCounts
  import opened NgramCache

  type File = seq<int>

  datatype LoadError = CannotOpen | Truncated | NotPositive

  // ---------------------------------------------------------------------------------------------
  // What a file says

  /** The next `n` pairs of a token and its count, put to those of `part`, and what follows them. */
  function ReadCounts(n: nat, file: File, part: Part): (r: Result<(Part, File), LoadError>)
    ensures r.Success? ==> |r.value.1| == |file| - 2 * n
  {
    if n == 0 then Success((part, file))
    else if |file| < 2 then Failure(Truncated)
    else if file[1] <= 0 then Failure(NotPositive)
    else ReadCounts(n - 1, file[2..], if file[0] in part then part else part[file[0] := file[1]])
  }

  /** The parts of a file, put to those of `parts`; less than a whole n-gram at the end is ignored. */
  function ReadParts(file: File, parts: Parts): Result<Parts, LoadError>
    decreases |file|
  {
    if |file| < MAX_SIZE then Success(parts)
    else if |file| == MAX_SIZE then Failure(Truncated)
    else if file[MAX_SIZE] <= 0 then Failure(NotPositive)
    else
      var g: Ngram := file[..MAX_SIZE];
      var (part, rest) :- ReadCounts(file[MAX_SIZE], file[MAX_SIZE + 1..], map[]);
      ReadParts(rest, if g in parts then parts else parts[g := part])
  }

  /** Whatever is loaded is proper. */
  lemma {:induction false} ReadProper(file: File, parts: Parts)
    requires Proper(parts)
    ensures ReadParts(file, parts).Success? ==> Proper(ReadParts(file, parts).value)
    decreases |file|
  {
    if |file| > MAX_SIZE && file[MAX_SIZE] > 0 {
      var g: Ngram := file[..MAX_SIZE];
      var r := ReadCounts(file[MAX_SIZE], file[MAX_SIZE + 1..], map[]);
      if r.Success? {
        CountsProper(file[MAX_SIZE], file[MAX_SIZE + 1..], map[]);
        ReadProper(r.value.1, if g in parts then parts else parts[g := r.value.0]);
      }
    }
  }

  lemma {:induction false} CountsProper(n: nat, file: File, part: Part)
    requires forall t :: t in part ==> part[t] > 0
    ensures var r := ReadCounts(n, file, part);
            r.Success? ==>
              (forall t :: t in r.value.0 ==> r.value.0[t] > 0) && (n > 0 || part != map[] ==> r.value.0 != map[])
    decreases n
  {
    if n > 0 && |file| >= 2 && file[1] > 0 {
      var part' := if file[0] in part then part else part[file[0] := file[1]];
      assert file[0] in part';
      CountsProper(n - 1, file[2..], part');
    }
  }

  // ---------------------------------------------------------------------------------------------
  // How a file is laid out

  /** A token and its count. */
  datatype Entry = Entry(token: Token, count: int)

  /** Each token followed by its count. */
  function Flat(entries: seq<Entry>): File {
    if entries == [] then [] else [entries[0].token, entries[0].count] + Flat(entries[1..])
  }

  /** The entries put to a part; the first one for a token is kept. */
  function PutAll(part: Part, entries: seq<Entry>): Part
    decreases |entries|
  {
    if entries == [] then part
    else
      var e := entries[0];
      PutAll(if e.token in part then part else part[e.token := e.count], entries[1..])
  }

  lemma {:induction false} CountsSay(entries: seq<Entry>, rest: File, part: Part)
    requires forall i :: 0 <= i < |entries| ==> entries[i].count > 0
    ensures ReadCounts(|entries|, Flat(entries) + rest, part) == Success((PutAll(part, entries), rest))
    decreases |entries|
  {
    if entries == [] {
      assert Flat(entries) + rest == rest;
    } else {
      var e := entries[0];
      var file := Flat(entries) + rest;
      assert file == [e.token, e.count] + (Flat(entries[1..]) + rest);
      assert file[2..] == Flat(entries[1..]) + rest;
      CountsSay(entries[1..], rest, if e.token in part then part else part[e.token := e.count]);
    }
  }

  /** Four tokens, the number of entries, and the entries; then the next part. */
  lemma PartSays(g: seq<Token>, entries: seq<Entry>, rest: File, parts: Parts)
    requires |g| == 4 && entries != [] && forall i :: 0 <= i < |entries| ==> entries[i].count > 0
    ensures ReadParts(g + [|entries|] + Flat(entries) + rest, parts) ==
            ReadParts(rest, if g in parts then parts else parts[g := PutAll(map[], entries)])
  {
    var file := g + [|entries|] + Flat(entries) + rest;
    assert file[..4] == g && file[4] == |entries| && file[5..] == Flat(entries) + rest;
    CountsSay(entries, rest, map[]);
  }

  // ---------------------------------------------------------------------------------------------
  // Saving

  /** After `out` the reading goes on with the counts of `part` read. */
  ghost predicate ReadsCounts(n: nat, out: File, part: Part, total: nat) {
    forall rest :: ReadCounts(total, out + rest, map[]) == ReadCounts(n, rest, part)
  }

  lemma ReadsOneMore(n: nat, out: File, part: Part, total: nat, t: Token, count: int)
    requires n > 0 && ReadsCounts(n, out, part, total) && t !in part && count > 0
    ensures ReadsCounts(n - 1, out + [t, count], part[t := count], total)
  {
    forall rest
      ensures ReadCounts(total, out + [t, count] + rest, map[]) == ReadCounts(n - 1, rest, part[t := count])
    {
      var file := [t, count] + rest;
      assert out + [t, count] + rest == out + file;
      assert file[2..] == rest;
    }
  }

  /** The tokens of a part and their counts, in any order. */
  method SaveCounts(part: Part) returns (out: File)
    requires ProperPart(part)
    ensures ReadsCounts(0, out, part, |part|)
  {
    out := [];
    var tokens := part.Keys;
    ghost var done: Part := map[];
    assert forall rest: File :: out + rest == rest;
    assert |tokens| == |part|;
    while tokens != {}
      invariant tokens <= part.Keys && done == map t | t in part && t !in tokens :: part[t]
      invariant ReadsCounts(|tokens|, out, done, |part|)
      decreases |tokens|
    {
      Inhabited(tokens);
      var token :| token in tokens;
      ReadsOneMore(|tokens|, out, done, |part|, token, part[token]);
      out := out + [token, part[token]];
      done := done[token := part[token]];
      tokens := tokens - {token};
    }
    assert done == part;
  }

  ghost predicate ReadsParts(out: File, parts: Parts) {
    forall rest :: ReadParts(out + rest, map[]) == ReadParts(rest, parts)
  }

  lemma ReadOnePart(file: File, parts: Parts, g: Ngram, part: Part, counts: File, rest: File)
    requires |file| > MAX_SIZE && file[..MAX_SIZE] == g && file[MAX_SIZE] == |part|
    requires file[MAX_SIZE + 1..] == counts + rest
    requires g !in parts && |part| > 0 && ReadsCounts(0, counts, part, |part|)
    ensures ReadParts(file, parts) == ReadParts(rest, parts[g := part])
  {
    assert ReadCounts(|part|, counts + rest, map[]) == ReadCounts(0, rest, part);
  }

  lemma ItemFile(g: Ngram, n: int, counts: File, rest: File, file: File)
    requires file == g + ([n] + (counts + rest))
    ensures |file| > MAX_SIZE && file[..MAX_SIZE] == g && file[MAX_SIZE] == n && file[MAX_SIZE + 1..] == counts + rest
  {
    var tail := [n] + (counts + rest);
    assert file[MAX_SIZE..] == tail && file[MAX_SIZE + 1..] == tail[1..];
  }

  lemma Regroup(out: File, g: Ngram, n: int, counts: File, rest: File)
    ensures out + (g + [n] + counts) + rest == out + (g + ([n] + (counts + rest)))
  {
  }

  lemma ReadsPartMore(out: File, parts: Parts, g: Ngram, part: Part, counts: File, out': File)
    requires ReadsParts(out, parts) && g !in parts && |part| > 0 && ReadsCounts(0, counts, part, |part|)
    requires out' == out + (g + [|part|] + counts)
    ensures ReadsParts(out', parts[g := part])
  {
    forall rest
      ensures ReadParts(out' + rest, map[]) == ReadParts(rest, parts[g := part])
    {
      Regroup(out, g, |part|, counts, rest);
      ReadsPartThen(out, parts, g, part, counts, g + ([|part|] + (counts + rest)), rest);
    }
  }

  lemma ReadsPartThen(out: File, parts: Parts, g: Ngram, part: Part, counts: File, file: File, rest: File)
    requires ReadsParts(out, parts) && g !in parts && |part| > 0 && ReadsCounts(0, counts, part, |part|)
    requires file == g + ([|part|] + (counts + rest))
    ensures ReadParts(out + file, map[]) == ReadParts(rest, parts[g := part])
  {
    ItemFile(g, |part|, counts, rest, file);
    ReadOnePart(file, parts, g, part, counts, rest);
  }

  lemma SizePositive(part: Part)
    requires part != map[]
    ensures |part| > 0
  {
    NotEmpty(part);
    var t :| t in part;
    assert t in part.Keys;
  }

  /** The parts whose n-grams are not among these. */
  ghost function Without(parts: Parts, ngrams: set<Ngram>): Parts {
    map g | g in parts && g !in ngrams :: parts[g]
  }

  lemma WithoutLess(parts: Parts, ngrams: set<Ngram>, g: Ngram)
    requires g in ngrams && ngrams <= parts.Keys
    ensures Without(parts, ngrams - {g}) == Without(parts, ngrams)[g := parts[g]]
  {
  }

  /** Saves a cache, its parts in any order; loading the file gives the cache back. */
  method Save(cache: Cache) returns (file: File)
    requires Proper(cache.parts)
    ensures ReadParts(file, map[]) == Success(cache.parts)
  {
    file := [];
    var ngrams := cache.parts.Keys;
    ghost var done: Parts := map[];
    assert forall rest: File :: file + rest == rest;
    while ngrams != {}
      invariant ngrams <= cache.parts.Keys && done == Without(cache.parts, ngrams)
      invariant ReadsParts(file, done)
      decreases |ngrams|
    {
      var ngram :| ngram in ngrams;
      var part := cache.parts[ngram];
      SizePositive(part);
      var counts := SaveCounts(part);
      var file' := file + (ngram + [|part|] + counts);
      ReadsPartMore(file, done, ngram, part, counts, file');
      WithoutLess(cache.parts, ngrams, ngram);
      file := file';
      done := done[ngram := part];
      ngrams := ngrams - {ngram};
    }
    assert done == cache.parts;
    assert file + [] == file;
  }

  // ---------------------------------------------------------------------------------------------
  // Loading

  method LoadCounts(n: nat, file: File, start: nat) returns (r: Result<(Part, nat), LoadError>)
    requires start <= |file|
    ensures match ReadCounts(n, file[start..], map[])
            case Success((part, rest)) =>
              r.Success? && r.value.0 == part && start <= r.value.1 <= |file| && rest == file[r.value.1..]
            case Failure(e) => r == Failure(e)
  {
    var part: Part := map[];
    var pos := start;
    for i := 0 to n
      invariant start <= pos <= |file|
      invariant ReadCounts(n, file[start..], map[]) == ReadCounts(n - i, file[pos..], part)
    {
      if |file| - pos < 2 {
        return Failure(Truncated);
      }
      var token, count := file[pos], file[pos + 1];
      if count <= 0 {
        return Failure(NotPositive);
      }
      if token !in part {
        part := part[token := count];
      }
      pos := pos + 2;
    }
    return Success((part, pos));
  }

  /** Loads a file, if it can be opened. */
  method Load(found: Option<File>) returns (r: Result<Parts, LoadError>)
    ensures r == if found.None? then Failure(CannotOpen) else ReadParts(found.value, map[])
  {
    if found.None? {
      return Failure(CannotOpen);
    }
    var file := found.value;
    var parts: Parts := map[];
    var pos := 0;
    assert file[0..] == file;
    while |file| - pos >= MAX_SIZE
      invariant pos <= |file|
      invariant ReadParts(file, map[]) == ReadParts(file[pos..], parts)
    {
      var ngram: Ngram := file[pos..pos + MAX_SIZE];
      assert file[pos..][..MAX_SIZE] == ngram;
      pos := pos + MAX_SIZE;
      if pos == |file| {
        return Failure(Truncated);
      }
      var ntokens := file[pos];
      assert file[pos - MAX_SIZE..][MAX_SIZE + 1..] == file[pos + 1..];
      if ntokens <= 0 {
        return Failure(NotPositive);
      }
      var counts := LoadCounts(ntokens, file, pos + 1);
      if counts.Failure? {
        return Failure(counts.error);
      }
      if ngram !in parts {
        parts := parts[ngram := counts.value.0];
      }
      pos := counts.value.1;
    }
    return Success(parts);
  }
}
