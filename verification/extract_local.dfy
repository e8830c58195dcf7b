/** The `extract` and `extract-local` commands of cli.py, minus the I/O: how an
    exam is named, which HTML files are read and in what order, how the cards
    of several files are pooled and deduplicated, and the per-card loop that
    counts questions and discussions, collects errors and honours the
    question limit.

    File system access, parsing of HTML and saving of results are not
    modelled: a directory is the list of its entry names, a read is an
    `Option` (None when reading or parsing the file raised), and each card's
    fate in the loop is an input `CardStep`. */
module ExtractLocal {
  import opened Common
  import opened Models
  import opened Dedup
  import opened StringSort

  // ---------------------------------------------------------------------------
  // Exam names
  // ---------------------------------------------------------------------------

  /** `s.split(sep)` for a one-character separator: always at least one part,
      none containing the separator. */
  function Split(s: string, sep: char): (r: seq<string>)
    ensures |r| >= 1
    ensures forall i :: 0 <= i < |r| ==> sep !in r[i]
  {
    if |s| == 0 then [""]
    else if s[0] == sep then [""] + Split(s[1..], sep)
    else
      var t := Split(s[1..], sep);
      [[s[0]] + t[0]] + t[1..]
  }

  /** `sep.join(parts)`. */
  function Join(parts: seq<string>, sep: char): string
    requires |parts| >= 1
  {
    if |parts| == 1 then parts[0] else parts[0] + [sep] + Join(parts[1..], sep)
  }

  /** Splitting and joining again gives back the text. */
  lemma {:induction false} JoinSplit(s: string, sep: char)
    ensures Join(Split(s, sep), sep) == s
  {
    if |s| == 0 {
    } else if s[0] == sep {
      JoinSplit(s[1..], sep);
      assert ([""] + Split(s[1..], sep))[1..] == Split(s[1..], sep);
    } else {
      JoinSplit(s[1..], sep);
      var t := Split(s[1..], sep);
      if |t| > 1 {
        assert ([[s[0]] + t[0]] + t[1..])[1..] == t[1..];
        assert Join(t, sep) == t[0] + [sep] + Join(t[1..], sep);
      }
    }
  }

  /** Joining parts free of the separator and splitting again gives back the
      parts. */
  lemma {:induction false} SplitJoin(parts: seq<string>, sep: char)
    requires |parts| >= 1
    requires forall i :: 0 <= i < |parts| ==> sep !in parts[i]
    ensures Split(Join(parts, sep), sep) == parts
  {
    if |parts| == 1 {
      SplitNoSeparator(parts[0], sep);
    } else {
      SplitJoin(parts[1..], sep);
      SplitAppend(parts[0], Join(parts[1..], sep), sep);
      assert parts == [parts[0]] + parts[1..];
    }
  }

  /** A text without the separator splits into itself. */
  lemma {:induction false} SplitNoSeparator(s: string, sep: char)
    requires sep !in s
    ensures Split(s, sep) == [s]
  {
    if |s| > 0 {
      SplitNoSeparator(s[1..], sep);
      assert [s[0]] + s[1..] == s;
    }
  }

  /** A separator-free head followed by the separator splits off as one part. */
  lemma {:induction false} SplitAppend(head: string, tail: string, sep: char)
    requires sep !in head
    ensures Split(head + [sep] + tail, sep) == [head] + Split(tail, sep)
  {
    if |head| == 0 {
      assert head + [sep] + tail == [sep] + tail;
      assert ([sep] + tail)[1..] == tail;
    } else {
      var s := head + [sep] + tail;
      assert s[1..] == head[1..] + [sep] + tail;
      SplitAppend(head[1..], tail, sep);
      assert [head[0]] + head[1..] == head;
    }
  }

  /** A path segment is kept when it is non-empty. */
  predicate IsSegment(p: string) {
    p != ""
  }

  /** `[p for p in path.split("/") if p]`. */
  function PathParts(path: string): (r: seq<string>)
    ensures forall i :: 0 <= i < |r| ==> r[i] != "" && '/' !in r[i]
  {
    var parts := Split(path, '/');
    var r := Filter(parts, IsSegment);
    assert forall i :: 0 <= i < |r| ==> r[i] in parts;
    r
  }

  /** The exam name the `extract` command derives from the URL's path: its
      last two non-empty segments joined by "-", else "exam". */
  function UrlExamName(path: string): (r: string)
    ensures r != "" && '/' !in r
    ensures |PathParts(path)| < 2 <==> r == "exam"
  {
    var parts := PathParts(path);
    if |parts| >= 2 then
      var r := parts[|parts| - 2] + "-" + parts[|parts| - 1];
      assert r[|parts[|parts| - 2]|] == '-';
      r
    else "exam"
  }

  /** The non-empty segments of `/seg1/.../segN` are the segments. */
  lemma PathPartsOfSegments(segs: seq<string>)
    requires |segs| >= 1
    requires forall i :: 0 <= i < |segs| ==> segs[i] != "" && '/' !in segs[i]
    ensures PathParts("/" + Join(segs, '/')) == segs
  {
    var a := [""] + segs;
    assert a[1..] == segs;
    SplitJoin(a, '/');
    assert Join(a, '/') == "/" + Join(segs, '/');
    assert Filter(a, IsSegment) == Filter(segs, IsSegment);
  }

  /** A leading separator splits off an empty part. */
  lemma SplitLeadingSeparator(x: string, sep: char)
    ensures Split([sep] + x, sep) == [""] + Split(x, sep)
  {
    assert ([sep] + x)[1..] == x;
  }

  /** Segments followed by a separator split into the segments and an empty
      part. */
  lemma SplitSegmentsThenSlash(segs: seq<string>)
    requires |segs| >= 1
    requires forall i :: 0 <= i < |segs| ==> '/' !in segs[i]
    ensures Split(Join(segs, '/') + "/", '/') == segs + [""]
  {
    var t := segs + [""];
    forall i | 0 <= i < |t|
      ensures '/' !in t[i]
    {
      if i < |segs| {
        assert t[i] == segs[i];
      }
    }
    SplitJoin(t, '/');
    JoinSnoc(segs, "", '/');
    assert Join(segs, '/') + ['/'] + "" == Join(segs, '/') + "/";
  }

  /** `/seg1/.../segN/` splits into an empty part, the segments and an empty
      part. */
  lemma SplitTrailingSlash(segs: seq<string>)
    requires |segs| >= 1
    requires forall i :: 0 <= i < |segs| ==> '/' !in segs[i]
    ensures Split("/" + (Join(segs, '/') + "/"), '/') == [""] + (segs + [""])
  {
    var b := [""] + (segs + [""]);
    WrappedPartsFree(segs);
    SplitJoin(b, '/');
    JoinWrapped(segs);
  }

  /** Wrapping separator-free parts in empty parts keeps them separator-free. */
  lemma WrappedPartsFree(segs: seq<string>)
    requires forall i :: 0 <= i < |segs| ==> '/' !in segs[i]
    ensures var b := [""] + (segs + [""]);
      forall i :: 0 <= i < |b| ==> '/' !in b[i]
  {
    var b := [""] + (segs + [""]);
    forall i | 0 <= i < |b| ensures '/' !in b[i] {
      if 0 < i <= |segs| { assert b[i] == segs[i - 1]; }
    }
  }

  /** Empty parts at both ends join into a leading and a trailing separator. */
  lemma JoinWrapped(segs: seq<string>)
    requires |segs| >= 1
    ensures Join([""] + (segs + [""]), '/') == "/" + (Join(segs, '/') + "/")
  {
    var t := segs + [""];
    var j := Join(segs, '/');
    assert ([""] + t)[1..] == t;
    assert Join(t, '/') == j + "/" by { JoinSnoc(segs, "", '/'); }
  }

  /** A trailing slash adds only an empty segment, which is dropped. */
  lemma PathPartsTrailingSlash(segs: seq<string>)
    requires |segs| >= 1
    requires forall i :: 0 <= i < |segs| ==> segs[i] != "" && '/' !in segs[i]
    ensures PathParts("/" + (Join(segs, '/') + "/")) == segs
  {
    var b := [""] + (segs + [""]);
    assert Split("/" + (Join(segs, '/') + "/"), '/') == b by { SplitTrailingSlash(segs); }
    assert Filter(b, IsSegment) == segs by {
      assert b[1..] == segs + [""];
      FilterSnoc(segs, "", IsSegment);
      assert Filter(segs, IsSegment) == segs;
    }
  }

  /** The name is read off the path's segments. */
  lemma UrlExamNameOfParts(path: string, segs: seq<string>)
    requires |segs| >= 2 && PathParts(path) == segs
    ensures UrlExamName(path) == segs[|segs| - 2] + "-" + segs[|segs| - 1]
  {
  }

  /** An exam URL path `/seg1/.../segN` with N >= 2 is named after its last two
      segments, with or without a trailing slash. */
  lemma UrlExamNameOfSegments(segs: seq<string>)
    requires |segs| >= 2
    requires forall i :: 0 <= i < |segs| ==> segs[i] != "" && '/' !in segs[i]
    ensures UrlExamName("/" + Join(segs, '/')) == segs[|segs| - 2] + "-" + segs[|segs| - 1]
    ensures UrlExamName("/" + (Join(segs, '/') + "/")) == segs[|segs| - 2] + "-" + segs[|segs| - 1]
  {
    PathPartsOfSegments(segs);
    PathPartsTrailingSlash(segs);
    UrlExamNameOfParts("/" + Join(segs, '/'), segs);
    UrlExamNameOfParts("/" + (Join(segs, '/') + "/"), segs);
  }

  /** Joining with one more part appends the separator and the part. */
  lemma {:induction false} JoinSnoc(parts: seq<string>, last: string, sep: char)
    requires |parts| >= 1
    ensures Join(parts + [last], sep) == Join(parts, sep) + [sep] + last
  {
    if |parts| > 1 {
      assert (parts + [last])[1..] == parts[1..] + [last];
      JoinSnoc(parts[1..], last, sep);
    }
  }

  /** A path with fewer than two non-empty segments is named "exam". */
  lemma ShortPathsNamedExam(seg: string)
    requires '/' !in seg
    ensures UrlExamName("/" + seg) == "exam"
  {
    var a := ["", seg];
    SplitJoin(a, '/');
    assert Join(a, '/') == "/" + seg;
    assert |Filter(a, IsSegment)| <= 1 by { assert a[1..] == [seg]; }
  }

  /** `.replace(" ", "-").replace("_", "-")`. */
  function Dashed(s: string): (r: string)
    ensures |r| == |s|
    ensures forall i :: 0 <= i < |r| ==> r[i] != ' ' && r[i] != '_'
    ensures forall i :: 0 <= i < |s| && s[i] != ' ' && s[i] != '_' ==> r[i] == s[i]
    ensures forall i :: 0 <= i < |s| && (s[i] == ' ' || s[i] == '_') ==> r[i] == '-'
  {
    seq(|s|, i requires 0 <= i < |s| => if s[i] == ' ' || s[i] == '_' then '-' else s[i])
  }

  /** Dashing a name twice changes nothing more. */
  lemma DashedIdempotent(s: string)
    ensures Dashed(Dashed(s)) == Dashed(s)
  {
  }

  /** What the user gave as the input path. */
  datatype InputPath =
    | Missing
    | HtmlFile(name: string, stem: string, suffix: string)
    | Directory(name: string, entries: seq<string>)
    | Neither

  /** The exam name of `extract-local`: the one given, unless it is empty; else
      the file's stem or the directory's name with spaces and underscores
      turned into dashes. */
  function LocalExamName(given: string, input: InputPath): (r: string)
    requires input.HtmlFile? || input.Directory?
    ensures given != "" ==> r == given
    ensures given == "" && input.HtmlFile? ==> r == Dashed(input.stem)
    ensures given == "" && input.Directory? ==> r == Dashed(input.name)
    ensures given == "" ==> forall i :: 0 <= i < |r| ==> r[i] != ' ' && r[i] != '_'
  {
    if given != "" then given
    else if input.HtmlFile? then Dashed(input.stem)
    else Dashed(input.name)
  }

  // ---------------------------------------------------------------------------
  // Which files are read
  // ---------------------------------------------------------------------------

  predicate EndsWith(s: string, suffix: string) {
    |suffix| <= |s| && s[|s| - |suffix|..] == suffix
  }

  /** Matches `*.html` or `*.htm` (case-sensitive, as on POSIX). */
  predicate GlobsHtml(name: string) {
    EndsWith(name, ".html") || EndsWith(name, ".htm")
  }

  datatype FileList = Exit | Files(paths: seq<string>)

  /** The file list of `extract-local`: a single file must carry an .html or
      .htm suffix in any case; a directory contributes its matching entries in
      sorted order and must have one; anything else ends the command. A
      directory never lists a name twice. */
  function HtmlFiles(input: InputPath): (r: FileList)
    requires input.Directory? ==> Distinct(input.entries)
    ensures input.Missing? || input.Neither? ==> r == Exit
    ensures input.HtmlFile? ==> (r.Files? <==> Lower(input.suffix) in [".html", ".htm"])
    ensures input.HtmlFile? && r.Files? ==> r.paths == [input.name]
    ensures input.Directory? ==> (r.Exit? <==> forall i :: 0 <= i < |input.entries| ==> !GlobsHtml(input.entries[i]))
    ensures input.Directory? && r.Files? ==>
      (StrictlySorted(r.paths) && forall x :: x in r.paths <==> x in input.entries && GlobsHtml(x))
  {
    match input
    case Missing => Exit
    case Neither => Exit
    case HtmlFile(name, _, suffix) =>
      if Lower(suffix) in [".html", ".htm"] then Files([name]) else Exit
    case Directory(_, entries) =>
      var found := Filter(entries, (n: string) => EndsWith(n, ".html"))
        + Filter(entries, (n: string) => EndsWith(n, ".htm"));
      assert forall x :: x in found <==> x in entries && GlobsHtml(x);
      assert found == [] <==> forall i :: 0 <= i < |entries| ==> !GlobsHtml(entries[i]) by {
        if found != [] {
          assert found[0] in entries;
        }
      }
      if found == [] then Exit else Files(SortedSet(found))
  }

  /** Sorting the directory's matches fixes the order: any strictly sorted
      listing of the same names is the one the command files. */
  lemma HtmlFilesOrderIsCanonical(input: InputPath, order: seq<string>)
    requires input.Directory? && Distinct(input.entries)
    requires HtmlFiles(input).Files?
    requires StrictlySorted(order)
    requires forall x :: x in order <==> x in input.entries && GlobsHtml(x)
    ensures HtmlFiles(input).paths == order
  {
    StrictlySortedUnique(HtmlFiles(input).paths, order);
  }

  // ---------------------------------------------------------------------------
  // Pooling the cards of all files
  // ---------------------------------------------------------------------------

  /** The cards of every file whose read succeeded, in file order. */
  function PooledCards(files: seq<Option<seq<Card>>>): (r: seq<Card>)
    ensures |files| == 0 ==> r == []
  {
    if |files| == 0 then []
    else
      var last := match files[|files| - 1] case Some(cs) => cs case None => [];
      PooledCards(files[..|files| - 1]) + last
  }

  /** Card c is among the cards read from file k. */
  predicate FromFile(files: seq<Option<seq<Card>>>, k: int, c: Card) {
    0 <= k < |files| && files[k].Some? && c in files[k].value
  }

  /** A card is pooled exactly when some file that was read holds it. */
  lemma {:induction false} PooledCardsMembers(files: seq<Option<seq<Card>>>, c: Card)
    ensures c in PooledCards(files) <==> exists k :: FromFile(files, k, c)
  {
    if |files| > 0 {
      var n := |files| - 1;
      var init := files[..n];
      PooledCardsMembers(init, c);
      forall k | 0 <= k < n ensures FromFile(init, k, c) <==> FromFile(files, k, c) {
        assert init[k] == files[k];
      }
      if c in PooledCards(files) && c !in PooledCards(init) {
        assert FromFile(files, n, c);
      }
      if c !in PooledCards(files) {
        forall k | 0 <= k < |files| ensures !FromFile(files, k, c) {
          if k < n { assert !FromFile(init, k, c); }
        }
      }
    }
  }

  /** The 1-based numbers of the files whose read failed, one error each. */
  function ReadErrors(files: seq<Option<seq<Card>>>): (r: seq<nat>)
    ensures |r| <= |files|
    ensures forall i :: 0 <= i < |r| ==> 1 <= r[i] <= |files| && files[r[i] - 1].None?
    ensures forall i :: 0 <= i < |files| && files[i].None? ==> i + 1 in r
  {
    if |files| == 0 then []
    else
      var init := files[..|files| - 1];
      var e := ReadErrors(init);
      assert forall i :: 0 <= i < |init| ==> files[i] == init[i];
      if files[|files| - 1].None? then e + [|files|] else e
  }

  /** Pooling distributes over splitting the file list. */
  lemma {:induction false} PooledCardsSplit(files: seq<Option<seq<Card>>>, j: nat)
    requires j <= |files|
    ensures PooledCards(files) == PooledCards(files[..j]) + PooledCards(files[j..])
    decreases |files|
  {
    if j == |files| {
      assert files[..j] == files;
      assert PooledCards(files[j..]) == [];
    } else {
      var init := files[..|files| - 1];
      PooledCardsSplit(init, j);
      assert init[..j] == files[..j];
      assert files[j..][..|files[j..]| - 1] == init[j..];
    }
  }

  /** Where the read loop leaves the command. */
  datatype Pooled = NoCards(errors: seq<nat>) | Unique(cards: seq<Card>, errors: seq<nat>)

  /** The read loop and the global deduplication: no cards at all ends the
      command; otherwise the pooled cards are deduplicated as one list. */
  function PoolAndDeduplicate(files: seq<Option<seq<Card>>>): (r: Pooled)
    ensures r.errors == ReadErrors(files)
    ensures r.NoCards? <==> PooledCards(files) == []
    ensures r.Unique? ==> r.cards == Deduplicate(PooledCards(files))
    ensures r.Unique? ==> IsSubsequence(r.cards, PooledCards(files))
  {
    var all := PooledCards(files);
    if all == [] then NoCards(ReadErrors(files))
    else Unique(Deduplicate(all), ReadErrors(files))
  }

  /** Across files the earliest copy of a question wins: the cards kept from
      the files after j are exactly those whose number no card of the first
      j files already carried. */
  lemma EarlierFilesWin(files: seq<Option<seq<Card>>>, j: nat)
    requires j <= |files|
    requires PooledCards(files) != []
    ensures var r := PoolAndDeduplicate(files);
      var before := PooledCards(files[..j]);
      exists later: seq<Card> ::
        && r.cards == Deduplicate(before) + later
        && IsSubsequence(later, PooledCards(files[j..]))
        && forall i :: 0 <= i < |later| && Fingerprint(later[i]).Some? ==>
             Fingerprint(later[i]).value !in Numbers(before, Fingerprint)
  {
    PooledCardsSplit(files, j);
    var before := PooledCards(files[..j]);
    var after := PooledCards(files[j..]);
    DedupAcrossSources(before, after);
    var later := DedupFrom(after, Fingerprint, Numbers(before, Fingerprint));
    assert PoolAndDeduplicate(files).cards == Deduplicate(before) + later;
  }

  // ---------------------------------------------------------------------------
  // The per-card loop
  // ---------------------------------------------------------------------------

  /** What happens to one unique card. `Raises`: the loop body raised outside
      the parser and the storage, which both catch their own errors.
      `NotParsed`: the parser returned no question. `Saved`: a question was
      parsed and counted; the loop ignores whether its file was written. If
      discussions are extracted, `discussionFound` says whether one was parsed
      (a discussion that raised counts as not found, and its write outcome is
      ignored too). */
  datatype CardStep = Raises | NotParsed | Saved(discussionFound: bool)

  /** Questions saved by a run of steps. */
  function QuestionsIn(steps: seq<CardStep>): (r: nat)
    ensures r <= |steps|
  {
    if |steps| == 0 then 0
    else
      var last := if steps[|steps| - 1].Saved? then 1 else 0;
      QuestionsIn(steps[..|steps| - 1]) + last
  }

  /** Discussions found by a run of steps. */
  function DiscussionsIn(steps: seq<CardStep>): (r: nat)
    ensures r <= QuestionsIn(steps)
  {
    if |steps| == 0 then 0
    else
      var last := if steps[|steps| - 1] == Saved(true) then 1 else 0;
      DiscussionsIn(steps[..|steps| - 1]) + last
  }

  /** The 1-based card numbers whose processing raised. */
  function FailedCards(steps: seq<CardStep>): (r: seq<nat>)
    ensures |r| + QuestionsIn(steps) <= |steps|
  {
    if |steps| == 0 then []
    else
      var init := steps[..|steps| - 1];
      if steps[|steps| - 1] == Raises then FailedCards(init) + [|steps|] else FailedCards(init)
  }

  /** r lists, in increasing order, exactly the 1-based numbers of the steps
      that raised. */
  predicate NamesRaises(steps: seq<CardStep>, r: seq<nat>) {
    && (forall i :: 0 <= i < |r| ==> 1 <= r[i] <= |steps| && steps[r[i] - 1] == Raises)
    && (forall i :: 0 <= i < |steps| && steps[i] == Raises ==> i + 1 in r)
    && (forall i, j :: 0 <= i < j < |r| ==> r[i] < r[j])
  }

  /** The error list names exactly the cards that raised, in card order. */
  lemma {:induction false} FailedCardsAreRaises(steps: seq<CardStep>)
    ensures NamesRaises(steps, FailedCards(steps))
  {
    if |steps| > 0 {
      var init := steps[..|steps| - 1];
      FailedCardsAreRaises(init);
      RaisesStep(steps, FailedCards(init));
    }
  }

  /** Appending the number of a last step that raised keeps the list exact. */
  lemma RaisesStep(steps: seq<CardStep>, ri: seq<nat>)
    requires |steps| > 0 && NamesRaises(steps[..|steps| - 1], ri)
    ensures NamesRaises(steps, ri + if steps[|steps| - 1] == Raises then [|steps|] else [])
  {
    var n := |steps|;
    var init := steps[..n - 1];
    assert forall i :: 0 <= i < n - 1 ==> init[i] == steps[i];
    if steps[n - 1] == Raises {
      RaisesSnoc(steps, ri);
    } else {
      assert ri + [] == ri;
    }
  }

  /** The case where the last step raised. */
  lemma RaisesSnoc(steps: seq<CardStep>, ri: seq<nat>)
    requires |steps| > 0 && steps[|steps| - 1] == Raises
    requires NamesRaises(steps[..|steps| - 1], ri)
    ensures NamesRaises(steps, ri + [|steps|])
  {
    var n := |steps|;
    var init := steps[..n - 1];
    var r := ri + [n];
    forall i | 0 <= i < |r| ensures 1 <= r[i] <= n && steps[r[i] - 1] == Raises {
      if i < |ri| {
        assert r[i] == ri[i];
        assert 1 <= ri[i] <= |init| && init[ri[i] - 1] == Raises;
      }
    }
    forall i | 0 <= i < n && steps[i] == Raises ensures i + 1 in r {
      if i < n - 1 {
        assert init[i] == steps[i];
        var k :| 0 <= k < |ri| && ri[k] == i + 1;
        assert r[k] == i + 1;
      }
    }
    forall i, j | 0 <= i < j < |r| ensures r[i] < r[j] {
      assert r[i] == ri[i] && ri[i] <= |init|;
      if j < |ri| {
        assert r[j] == ri[j];
      }
    }
  }

  /** Extending a run by one step adds that step's contribution to each count. */
  lemma StepCounts(steps: seq<CardStep>, i: nat)
    requires i < |steps|
    ensures QuestionsIn(steps[..i + 1]) == QuestionsIn(steps[..i]) + (if steps[i].Saved? then 1 else 0)
    ensures DiscussionsIn(steps[..i + 1]) == DiscussionsIn(steps[..i]) + (if steps[i] == Saved(true) then 1 else 0)
    ensures FailedCards(steps[..i + 1]) == FailedCards(steps[..i]) + (if steps[i] == Raises then [i + 1] else [])
  {
    assert steps[..i + 1][..i] == steps[..i];
  }

  /** `max_questions and questions_extracted >= max_questions`, with an absent
      limit written as 0. */
  predicate LimitReached(maxQuestions: int, count: nat) {
    maxQuestions != 0 && count >= maxQuestions
  }

  /** The loop breaks right after card k (1-based): it saved a question and
      that question reached the limit. */
  predicate StopsAfter(steps: seq<CardStep>, maxQuestions: int, k: nat)
    requires 0 < k <= |steps|
  {
    steps[k - 1].Saved? && LimitReached(maxQuestions, QuestionsIn(steps[..k]))
  }

  /** What the per-card loop adds to the run's figures: how many cards it
      visited, the questions and discussions it saved, and the errors of the
      cards that raised. The command's report lists the file read errors
      (`ReadErrors`) before these card errors; this record holds the card
      errors only. */
  datatype BatchReport = BatchReport(processed: nat, questions: nat, discussions: nat,
                                     errors: seq<nat>, success: bool)

  /** The per-card loop of `extract-local`: it visits cards until the first one whose saved question reaches the
      limit, counting saved questions and found discussions and recording one
      error per card that raised. */
  method ProcessCards(steps: seq<CardStep>, maxQuestions: int, extractDiscussions: bool)
      returns (report: BatchReport)
    ensures report.processed <= |steps|
    ensures report.questions == QuestionsIn(steps[..report.processed])
    ensures report.discussions == if extractDiscussions then DiscussionsIn(steps[..report.processed]) else 0
    ensures report.errors == FailedCards(steps[..report.processed])
    ensures report.success <==> report.questions > 0
    ensures forall k :: 0 < k < report.processed ==> !StopsAfter(steps, maxQuestions, k)
    ensures report.processed < |steps| ==> 0 < report.processed && StopsAfter(steps, maxQuestions, report.processed)
    ensures maxQuestions > 0 ==> report.questions <= maxQuestions
    ensures maxQuestions == 0 ==> report.processed == |steps|
  {
    var i := 0;
    var questions := 0;
    var discussions := 0;
    var errors: seq<nat> := [];
    var stop := false;
    while i < |steps| && !stop
      invariant 0 <= i <= |steps|
      invariant questions == QuestionsIn(steps[..i])
      invariant discussions == if extractDiscussions then DiscussionsIn(steps[..i]) else 0
      invariant errors == FailedCards(steps[..i])
      invariant forall k :: 0 < k < i ==> !StopsAfter(steps, maxQuestions, k)
      invariant stop <==> 0 < i && StopsAfter(steps, maxQuestions, i)
      invariant maxQuestions > 0 ==> questions <= maxQuestions
      invariant maxQuestions > 0 && !stop ==> questions < maxQuestions
    {
      var step := steps[i];
      StepCounts(steps, i);
      match step {
        case Raises =>
          errors := errors + [i + 1];
        case NotParsed =>
        case Saved(found) =>
          questions := questions + 1;
          if extractDiscussions && found {
            discussions := discussions + 1;
          }
          if maxQuestions != 0 && questions >= maxQuestions {
            stop := true;
          }
      }
      i := i + 1;
    }
    report := BatchReport(i, questions, discussions, errors, questions > 0);
  }

  /** Over any run, the counters tally the cards by outcome: questions are the
      cards parsed, discussions those parsed with a discussion, errors those
      that raised, and with the cards the parser gave up on they account for
      every card. */
  lemma {:induction false} RunCounts(steps: seq<CardStep>)
    ensures QuestionsIn(steps) == multiset(steps)[Saved(false)] + multiset(steps)[Saved(true)]
    ensures DiscussionsIn(steps) == multiset(steps)[Saved(true)]
    ensures |FailedCards(steps)| == multiset(steps)[Raises]
    ensures QuestionsIn(steps) + |FailedCards(steps)| + multiset(steps)[NotParsed] == |steps|
  {
    if |steps| > 0 {
      var init := steps[..|steps| - 1];
      var last := steps[|steps| - 1];
      RunCounts(init);
      assert steps == init + [last];
      assert multiset(steps) == multiset(init) + multiset{last};
    }
  }

  /** A negative limit is reached by the first saved question. */
  lemma NegativeLimitStopsAtFirstQuestion(steps: seq<CardStep>, maxQuestions: int, k: nat)
    requires maxQuestions < 0 && 0 < k <= |steps| && steps[k - 1].Saved?
    ensures StopsAfter(steps, maxQuestions, k)
  {
    assert steps[..k][..k - 1] == steps[..k - 1];
  }
}
