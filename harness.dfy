/**
  The `dir` command of the tester: each file's parse result is classified
  into exactly one of four categories, the matching counter and the total
  are incremented, and in compact mode one status character per file is
  written, with a line break before every 80th.
 */
module Harness {
  import opened Wrappers
  import opened Forest
  import opened Ambiguity

  /** A successful parse: the root node and the forest that holds it. */
  datatype Handle = Handle(forest: Forest, root: Node)

  /** The engine's parse errors: only a prefix parsed, or nothing at all. */
  datatype ParseError = TooShort(handle: Handle) | NoParse

  type ParseResult = Result<Handle, ParseError>

  /** What the engine makes of one file's text: tokenizing either fails, or
      succeeds and the token stream is parsed into a result. */
  datatype Lexed = Tokenized(parsed: ParseResult) | TokenizeFailed

  /** `parse_file_with`: a tokenizing failure is reported as `NoParse`. */
  function ParseFileWith(file: Lexed): (r: ParseResult)
    ensures r.Ok? ==> file == Tokenized(r)
    ensures r.Err? && r.error.TooShort? ==> file == Tokenized(r)
    ensures r == Err(NoParse) <==> file in {TokenizeFailed, Tokenized(Err(NoParse))}
  {
    match file
    case Tokenized(result) => result
    case TokenizeFailed => Err(NoParse)
  }

  /** The four outcomes of one file, one per counter. */
  datatype Category = UnambiguousParse | AmbiguousParse | TooShortParse | FailedParse

  /** The `match result` that picks the status and the counter; `checkOk`
      is `ambiguity_check(handle).is_ok()`, consulted only for a full parse. */
  function Categorize(result: ParseResult, checkOk: bool): (c: Category)
    ensures c == UnambiguousParse <==> result.Ok? && checkOk
    ensures c == AmbiguousParse <==> result.Ok? && !checkOk
    ensures c == TooShortParse <==> result.Err? && result.error.TooShort?
    ensures c == FailedParse <==> result == Err(NoParse)
  {
    match result
    case Ok(_) => if checkOk then UnambiguousParse else AmbiguousParse
    case Err(TooShort(_)) => TooShortParse
    case Err(NoParse) => FailedParse
  }

  /** The character printed for a category in compact mode. Reading it back
      gives the category, so the four characters are distinct, and none of
      them is a line break: the character determines the counter that was
      incremented. */
  function StatusChar(c: Category): (ch: char)
    ensures CategoryOfStatus(ch) == Some(c)
    ensures ch != '\n'
  {
    match c
    case UnambiguousParse => '~'
    case AmbiguousParse => '!'
    case TooShortParse => '.'
    case FailedParse => 'X'
  }

  /** Reading a status character back. */
  function CategoryOfStatus(ch: char): Option<Category> {
    match ch
    case '~' => Some(UnambiguousParse)
    case '!' => Some(AmbiguousParse)
    case '.' => Some(TooShortParse)
    case 'X' => Some(FailedParse)
    case _ => None
  }

  /** The running counters of the `dir` command. */
  datatype Stats = Stats(total: nat, unambiguous: nat, ambiguous: nat, tooShort: nat, noParse: nat)

  /** The counter that `&mut` selects for a category. */
  function Counter(s: Stats, c: Category): (r: nat)
    ensures r <= s.unambiguous + s.ambiguous + s.tooShort + s.noParse
  {
    match c
    case UnambiguousParse => s.unambiguous
    case AmbiguousParse => s.ambiguous
    case TooShortParse => s.tooShort
    case FailedParse => s.noParse
  }

  /** `*count += 1; total_count += 1;` */
  function Bump(s: Stats, c: Category): (r: Stats)
    ensures r.total == s.total + 1
    ensures Counter(r, c) == Counter(s, c) + 1
    ensures forall c' :: c' != c ==> Counter(r, c') == Counter(s, c')
  {
    match c
    case UnambiguousParse => s.(total := s.total + 1, unambiguous := s.unambiguous + 1)
    case AmbiguousParse => s.(total := s.total + 1, ambiguous := s.ambiguous + 1)
    case TooShortParse => s.(total := s.total + 1, tooShort := s.tooShort + 1)
    case FailedParse => s.(total := s.total + 1, noParse := s.noParse + 1)
  }

  /** The counters after a run over files of the given categories. */
  function Tally(cs: seq<Category>): (r: Stats)
    ensures r.total == |cs|
    ensures r.unambiguous + r.ambiguous + r.tooShort + r.noParse == r.total
    decreases |cs|
  {
    if cs == [] then Stats(0, 0, 0, 0, 0) else Bump(Tally(cs[..|cs| - 1]), cs[|cs| - 1])
  }

  /** How often `x` occurs in `s`. */
  function Occurrences<T(==)>(s: seq<T>, x: T): nat
    decreases |s|
  {
    if s == [] then 0 else Occurrences(s[..|s| - 1], x) + (if s[|s| - 1] == x then 1 else 0)
  }

  /** Each counter holds the number of files of its category. */
  lemma {:induction false} TallyCounts(cs: seq<Category>, c: Category)
    ensures Counter(Tally(cs), c) == Occurrences(cs, c)
    decreases |cs|
  {
    if cs != [] {
      TallyCounts(cs[..|cs| - 1], c);
    }
  }

  /** The status characters of a run, one per file. */
  function Statuses(cs: seq<Category>): (r: seq<char>)
    ensures |r| == |cs|
    ensures forall i :: 0 <= i < |cs| ==> r[i] == StatusChar(cs[i])
    decreases |cs|
  {
    if cs == [] then [] else Statuses(cs[..|cs| - 1]) + [StatusChar(cs[|cs| - 1])]
  }

  /** The status stream agrees with the counters: each category's character
      appears exactly as often as its counter says. */
  lemma {:induction false} StatusesAgreeWithCounters(cs: seq<Category>, c: Category)
    ensures Occurrences(Statuses(cs), StatusChar(c)) == Counter(Tally(cs), c)
    decreases |cs|
  {
    if cs != [] {
      var init := cs[..|cs| - 1];
      StatusesAgreeWithCounters(init, c);
      assert Statuses(cs)[..|cs| - 1] == Statuses(init);
    }
  }

  /** The compact progress stream: before the status of the file whose
      1-based number is a multiple of 80, a line break. */
  function Compact(statuses: seq<char>): (r: string)
    ensures |r| == |statuses| + |statuses| / 80
    decreases |statuses|
  {
    if statuses == [] then []
    else
      var n := |statuses|;
      Compact(statuses[..n - 1]) + (if n % 80 == 0 then "\n" else "") + [statuses[n - 1]]
  }

  /** Where the `n`-th status (from 1) lands: after `n - 1` statuses and
      `(n - 1) / 80` line breaks; a break precedes it exactly when `n` is a
      multiple of 80, and then sits at a position `p` with `(p + 2) % 81 == 0`. */
  lemma Placement(n: nat)
    requires n > 0
    ensures n / 80 == (n - 1) / 80 + (if n % 80 == 0 then 1 else 0)
    ensures var m := (n - 1) + (n - 1) / 80;
      && ((m + 2) % 81 == 0 <==> n % 80 == 0)
      && (n % 80 == 0 ==> (m + 3) % 81 != 0)
  {
  }

  /** The compact stream of `statuses` with one more status: a line break
      first when the new count is a multiple of 80. */
  lemma CompactSnoc(statuses: seq<char>)
    requires statuses != []
    ensures var n := |statuses|; var prev := Compact(statuses[..n - 1]);
      && Compact(statuses)[..|prev|] == prev
      && Compact(statuses)[|Compact(statuses)| - 1] == statuses[n - 1]
      && (n % 80 == 0 ==> |Compact(statuses)| == |prev| + 2 && Compact(statuses)[|prev|] == '\n')
      && (n % 80 != 0 ==> |Compact(statuses)| == |prev| + 1)
  {
  }

  /** The status of file `i` (from 0) sits at `i + (i + 1) / 80`. */
  lemma {:induction false} CompactPositions(statuses: seq<char>)
    ensures |Compact(statuses)| == |statuses| + |statuses| / 80
    ensures forall i :: 0 <= i < |statuses| ==> Compact(statuses)[i + (i + 1) / 80] == statuses[i]
    decreases |statuses|
  {
    if statuses != [] {
      var n := |statuses|;
      var init := statuses[..n - 1];
      CompactPositions(init);
      CompactSnoc(statuses);
      Placement(n);
      var out := Compact(statuses);
      var prev := Compact(init);
      forall i | 0 <= i < n ensures out[i + (i + 1) / 80] == statuses[i] {
        if i < n - 1 {
          CompactLayoutIndex(i, n);
          assert out[i + (i + 1) / 80] == out[..|prev|][i + (i + 1) / 80];
          assert init[i] == statuses[i];
        }
      }
    }
  }

  /** The line breaks are exactly at positions 79, 160, 241, ...: the first
      line holds 79 statuses and every later one 80. */
  lemma {:induction false} CompactBreaks(statuses: seq<char>)
    requires forall i :: 0 <= i < |statuses| ==> statuses[i] != '\n'
    ensures |Compact(statuses)| == |statuses| + |statuses| / 80
    ensures forall j :: 0 <= j < |Compact(statuses)| ==> (Compact(statuses)[j] == '\n' <==> (j + 2) % 81 == 0)
    decreases |statuses|
  {
    if statuses != [] {
      var n := |statuses|;
      var init := statuses[..n - 1];
      CompactBreaks(init);
      CompactSnoc(statuses);
      Placement(n);
      var out := Compact(statuses);
      var prev := Compact(init);
      forall j | 0 <= j < |out| ensures out[j] == '\n' <==> (j + 2) % 81 == 0 {
        if j < |prev| {
          assert out[j] == out[..|prev|][j];
        }
      }
    }
  }

  /** Occurrences add up over a concatenation. */
  lemma {:induction false} OccurrencesAppend<T>(a: seq<T>, b: seq<T>, x: T)
    ensures Occurrences(a + b, x) == Occurrences(a, x) + Occurrences(b, x)
    decreases |b|
  {
    if b == [] {
      assert a + b == a;
    } else {
      var init := b[..|b| - 1];
      assert (a + b)[..|a + b| - 1] == a + init;
      OccurrencesAppend(a, init, x);
    }
  }

  /** The printed stream shows every status character exactly as often as
      the status sequence holds it: the line breaks add no status. */
  lemma {:induction false} CompactOccurrences(statuses: seq<char>, ch: char)
    requires ch != '\n'
    ensures Occurrences(Compact(statuses), ch) == Occurrences(statuses, ch)
    decreases |statuses|
  {
    if statuses != [] {
      var n := |statuses|;
      var init := statuses[..n - 1];
      var brk: string := if n % 80 == 0 then "\n" else "";
      CompactOccurrences(init, ch);
      assert Compact(statuses) == (Compact(init) + brk) + [statuses[n - 1]];
      OccurrencesAppend(Compact(init) + brk, [statuses[n - 1]], ch);
      OccurrencesAppend(Compact(init), brk, ch);
      assert Occurrences(brk, ch) == 0 by {
        if brk != "" {
          assert brk[..0] == [];
        }
      }
      assert Occurrences([statuses[n - 1]], ch) == (if statuses[n - 1] == ch then 1 else 0) by {
        assert [statuses[n - 1]][..0] == [];
      }
    }
  }

  /** Earlier statuses land before the end of the earlier stream. */
  lemma CompactLayoutIndex(i: nat, n: nat)
    requires i < n - 1
    ensures i + (i + 1) / 80 < (n - 1) + (n - 1) / 80
  {
  }

  /** What the engine guarantees of a full parse: a well-formed forest that
      holds the root. */
  predicate ForestOk(file: Lexed) {
    var r := ParseFileWith(file);
    r.Ok? ==> WellFormed(r.value.forest) && r.value.root in r.value.forest
  }

  /** The category a file must end up in. */
  ghost function Expected(file: Lexed): Category {
    var r := ParseFileWith(file);
    Categorize(r, r.Ok? && Unambiguous(r.value.forest, r.value.root))
  }

  /** The categories of a run's files, in order. */
  ghost function Categories(files: seq<Lexed>): seq<Category> {
    seq(|files|, i requires 0 <= i < |files| => Expected(files[i]))
  }

  /** One file of the `dir` loop: parse it, check a full parse for
      ambiguity, and file it under its category. */
  method CheckFile(file: Lexed) returns (category: Category)
    requires ForestOk(file)
    ensures category == Expected(file)
  {
    var result := ParseFileWith(file);
    var checkOk := false;
    if result.Ok? {
      var check, _ := AmbiguityCheck(result.value.forest, result.value.root);
      checkOk := check.Ok?;
    }
    category := Categorize(result, checkOk);
  }

  /** Compact mode's output for one file: a line break first when the running
      total has just reached a multiple of 80, then the status character. */
  method Emit(out: string, totalCount: nat, status: char) returns (out': string)
    ensures out' == out + (if totalCount % 80 == 0 then "\n" else "") + [status]
  {
    out' := out;
    if totalCount % 80 == 0 {
      out' := out' + "\n";
    }
    out' := out' + [status];
  }

  /**
    The loop of the `dir` command over the files, in the order the directory
    walk yields them.  The counters are the tally of the files' categories;
    in compact mode the output is the compact stream of their statuses, and
    in verbose mode (whose per-file dumps go to stderr) nothing is written.
   */
  method Dir(files: seq<Lexed>, verbose: bool) returns (stats: Stats, out: string)
    requires forall i :: 0 <= i < |files| ==> ForestOk(files[i])
    ensures stats == Tally(Categories(files))
    ensures out == if verbose then [] else Compact(Statuses(Categories(files)))
  {
    var totalCount, unambiguousCount, ambiguousCount, tooShortCount, noParseCount := 0, 0, 0, 0, 0;
    out := [];
    ghost var cats: seq<Category> := [];
    for i := 0 to |files|
      invariant cats == Categories(files[..i])
      invariant Stats(totalCount, unambiguousCount, ambiguousCount, tooShortCount, noParseCount) == Tally(cats)
      invariant verbose ==> out == []
      invariant !verbose ==> out == Compact(Statuses(cats))
    {
      assert totalCount == |cats| == i;
      var category := CheckFile(files[i]);
      var status := StatusChar(category);
      totalCount, unambiguousCount, ambiguousCount, tooShortCount, noParseCount :=
        Count(category, totalCount, unambiguousCount, ambiguousCount, tooShortCount, noParseCount);
      if !verbose {
        out := Emit(out, totalCount, status);
      }
      DirStep(files, i, cats, category);
      cats := cats + [category];
    }
    assert files[..|files|] == files;
    stats := Stats(totalCount, unambiguousCount, ambiguousCount, tooShortCount, noParseCount);
  }

  /** The `match` that selects a counter through `&mut`, then `*count += 1`
      and `total_count += 1`. */
  method Count(category: Category, total: nat, unambiguous: nat, ambiguous: nat, tooShort: nat, noParse: nat)
    returns (total': nat, unambiguous': nat, ambiguous': nat, tooShort': nat, noParse': nat)
    ensures Stats(total', unambiguous', ambiguous', tooShort', noParse')
      == Bump(Stats(total, unambiguous, ambiguous, tooShort, noParse), category)
  {
    total', unambiguous', ambiguous', tooShort', noParse' := total, unambiguous, ambiguous, tooShort, noParse;
    match category {
      case UnambiguousParse => unambiguous' := unambiguous' + 1;
      case AmbiguousParse => ambiguous' := ambiguous' + 1;
      case TooShortParse => tooShort' := tooShort' + 1;
      case FailedParse => noParse' := noParse' + 1;
    }
    total' := total' + 1;
  }

  /** One turn of the `dir` loop in terms of the specification: the next
      file's category is appended to the categories so far, bumps the tally
      by one and extends the compact stream by its status, preceded by a line
      break when the new total is a multiple of 80. */
  lemma DirStep(files: seq<Lexed>, i: nat, cats: seq<Category>, category: Category)
    requires i < |files| && cats == Categories(files[..i]) && category == Expected(files[i])
    ensures Categories(files[..i + 1]) == cats + [category]
    ensures Tally(cats + [category]) == Bump(Tally(cats), category)
    ensures Compact(Statuses(cats + [category]))
      == Compact(Statuses(cats)) + (if (i + 1) % 80 == 0 then "\n" else "") + [StatusChar(category)]
  {
    CategoriesStep(files, i);
    TallyStep(cats, category);
    StatusesStep(cats, category);
    CompactStep(Statuses(cats), StatusChar(category));
  }

  lemma CategoriesStep(files: seq<Lexed>, i: nat)
    requires i < |files|
    ensures Categories(files[..i + 1]) == Categories(files[..i]) + [Expected(files[i])]
  {
  }

  lemma TallyStep(cs: seq<Category>, c: Category)
    ensures Tally(cs + [c]) == Bump(Tally(cs), c)
  {
  }

  lemma StatusesStep(cs: seq<Category>, c: Category)
    ensures Statuses(cs + [c]) == Statuses(cs) + [StatusChar(c)]
  {
  }

  lemma CompactStep(statuses: seq<char>, ch: char)
    ensures Compact(statuses + [ch])
      == Compact(statuses) + (if (|statuses| + 1) % 80 == 0 then "\n" else "") + [ch]
  {
    assert (statuses + [ch])[..|statuses|] == statuses;
  }

  /** A tokenizing failure counts exactly as a parse that failed outright:
      an `X`, never a partial parse. */
  lemma TokenizeFailureIsNoParse()
    ensures Expected(TokenizeFailed) == Expected(Tokenized(Err(NoParse))) == FailedParse
    ensures StatusChar(Expected(TokenizeFailed)) == 'X'
  {
  }
}
