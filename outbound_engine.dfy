/**
 * The A/B-test store and decision rule of outbound_engine.py.
 *
 * The three SQLite tables (`tests`, `variants`, `sends`) are maps keyed by
 * their primary key; `variantOrder` keeps the variants' insertion (rowid)
 * order, which is the order `SELECT ... WHERE test_id = ?` returns them in.
 * Timestamps, generated ids and the chi-squared p-value are parameters.
 */
module OutboundEngine {
  import opened Wrappers
  import opened Text

  /** What element of an email a test varies. */
  datatype VariantType = SubjectLine | OpeningLine | Cta | FullBody

  /** The counters of a variant row. */
  datatype Counter = Sends | Opens | Replies | PositiveReplies

  /** A row of the `tests` table. */
  datatype TestRow = TestRow(
    testId: string, testName: string, variantType: VariantType,
    createdAt: int, status: string, winnerId: Option<string>)

  /** A row of the `variants` table. */
  datatype VariantRow = VariantRow(
    variantId: string, testId: string, content: string,
    sends: int, opens: int, replies: int, positiveReplies: int)
  {
    /** The row after `UPDATE variants SET c = c + 1`. */
    function Incremented(c: Counter): (v: VariantRow)
      ensures v.variantId == variantId && v.testId == testId && v.content == content
      ensures v.sends == sends + (if c == Sends then 1 else 0)
      ensures v.opens == opens + (if c == Opens then 1 else 0)
      ensures v.replies == replies + (if c == Replies then 1 else 0)
      ensures v.positiveReplies == positiveReplies + (if c == PositiveReplies then 1 else 0)
    {
      match c
      case Sends => this.(sends := sends + 1)
      case Opens => this.(opens := opens + 1)
      case Replies => this.(replies := replies + 1)
      case PositiveReplies => this.(positiveReplies := positiveReplies + 1)
    }
  }

  /** A row of the `sends` table. */
  datatype SendRow = SendRow(
    sendId: string, variantId: string, prospectEmail: string, sentAt: int,
    openedAt: Option<int>, repliedAt: Option<int>, replySentiment: Option<string>)

  /** Errors the store raises: SQLite primary-key clashes and the missing-variants `ValueError`. */
  datatype StoreError =
    | DuplicateTestId(testId: string)
    | DuplicateVariantId(testId: string)
    | DuplicateSendId(sendId: string)
    | NoVariants(testId: string)

  /** Success divided by sends, 0 when nothing was sent (`EmailVariant.open_rate`/`reply_rate`). */
  function Rate(successes: int, sends: int): (r: real)
    ensures sends > 0 ==> r * sends as real == successes as real
    ensures sends <= 0 ==> r == 0.0
  {
    if sends > 0 then successes as real / sends as real else 0.0
  }

  /** A rate of a non-negative count that does not exceed the sends lies in [0, 1]. */
  lemma RateBounds(successes: int, sends: int)
    requires 0 <= successes <= sends
    ensures 0.0 <= Rate(successes, sends) <= 1.0
  {
    if sends > 0 {
      var r := Rate(successes, sends);
      assert r * sends as real <= 1.0 * sends as real;
    }
  }

  /** The `EmailVariant` dataclass. */
  datatype EmailVariant = EmailVariant(
    variantId: string, variantType: VariantType, content: string,
    sends: int, opens: int, replies: int, positiveReplies: int)
  {
    /** Opens per send, 0 when nothing was sent. */
    function OpenRate(): (r: real)
      ensures sends > 0 ==> r * sends as real == opens as real
      ensures sends <= 0 ==> r == 0.0
    {
      Rate(opens, sends)
    }

    /** Replies per send, 0 when nothing was sent. */
    function ReplyRate(): (r: real)
      ensures sends > 0 ==> r * sends as real == replies as real
      ensures sends <= 0 ==> r == 0.0
    {
      Rate(replies, sends)
    }
  }

  // ---------------------------------------------------------------------
  // Line cleanup of the generated copy
  // ---------------------------------------------------------------------

  /** Python's `xs[:n]`, including the negative-`n` case. */
  function Take<T>(xs: seq<T>, n: int): (r: seq<T>)
    ensures n >= 0 ==> |r| == if n < |xs| then n else |xs|
    ensures n < 0 ==> |r| == if |xs| + n > 0 then |xs| + n else 0
    ensures r == xs[..|r|]
  {
    if n >= 0 then (if n < |xs| then xs[..n] else xs)
    else if |xs| + n > 0 then xs[..|xs| + n] else []
  }

  /** `[line.strip() for line in lines if line.strip()]`. */
  function NonBlank(lines: seq<string>): (r: seq<string>)
    ensures |r| <= |lines|
    ensures forall k :: 0 <= k < |r| ==> r[k] != [] && Strip(r[k]) == r[k]
  {
    if lines == [] then []
    else
      var rest := NonBlank(lines[1..]);
      StripIdempotent(lines[0]);
      if Strip(lines[0]) != [] then [Strip(lines[0])] + rest else rest
  }

  /** `a` is `b` with some elements left out. */
  predicate Subsequence<T(==)>(a: seq<T>, b: seq<T>) {
    if a == [] then true
    else if b == [] then false
    else if a[0] == b[0] then Subsequence(a[1..], b[1..])
    else Subsequence(a, b[1..])
  }

  function StripAll(lines: seq<string>): (r: seq<string>)
    ensures |r| == |lines|
    ensures forall k :: 0 <= k < |r| ==> r[k] == Strip(lines[k])
  {
    seq(|lines|, k requires 0 <= k < |lines| => Strip(lines[k]))
  }

  /** The kept lines are the stripped lines in their original order. */
  lemma {:induction false} NonBlankInOrder(lines: seq<string>)
    ensures Subsequence(NonBlank(lines), StripAll(lines))
  {
    if lines != [] {
      NonBlankInOrder(lines[1..]);
      assert StripAll(lines)[1..] == StripAll(lines[1..]);
      var rest := NonBlank(lines[1..]);
      if Strip(lines[0]) == [] {
        SubsequenceSkip(rest, StripAll(lines));
      }
    }
  }

  /** A subsequence of the tail of `b` is a subsequence of `b`. */
  lemma {:induction false} SubsequenceSkip<T>(a: seq<T>, b: seq<T>)
    requires b != [] && Subsequence(a, b[1..])
    ensures Subsequence(a, b)
    decreases |b|, 0
  {
    if a != [] && a[0] == b[0] {
      SubsequenceDropHead(a, b[1..]);
    }
  }

  /** If `a` is a subsequence of `b`, so is `a` without its first element. */
  lemma {:induction false} SubsequenceDropHead<T>(a: seq<T>, b: seq<T>)
    requires a != [] && Subsequence(a, b)
    ensures Subsequence(a[1..], b)
    decreases |b|, 1
  {
    if a[0] == b[0] {
      SubsequenceSkip(a[1..], b);
    } else {
      SubsequenceDropHead(a, b[1..]);
      SubsequenceSkip(a[1..], b);
    }
  }

  /**
   * The post-processing of the model's answer in `generate_subject_lines` and
   * `generate_opening_lines`: strip, split on newlines, keep the non-blank
   * stripped lines and return the first `numVariants` of them.
   */
  function CleanLines(text: string, numVariants: int): (r: seq<string>)
    ensures numVariants >= 0 ==> |r| <= numVariants
    ensures forall k :: 0 <= k < |r| ==> r[k] != [] && Strip(r[k]) == r[k] && '\n' !in r[k]
    ensures Subsequence(r, StripAll(Split(Strip(text), '\n')))
  {
    var lines := Split(Strip(text), '\n');
    var kept := NonBlank(lines);
    var r := Take(kept, numVariants);
    NonBlankInOrder(lines);
    PrefixSubsequence(r, kept, StripAll(lines));
    forall k | 0 <= k < |r| ensures '\n' !in r[k] {
      NonBlankSubsequenceNoNewline(lines, k);
    }
    r
  }

  /** No kept line contains a newline, since no piece of the split does. */
  lemma NonBlankSubsequenceNoNewline(lines: seq<string>, k: int)
    requires forall i :: 0 <= i < |lines| ==> '\n' !in lines[i]
    requires 0 <= k < |NonBlank(lines)|
    ensures '\n' !in NonBlank(lines)[k]
  {
    var i := NonBlankFrom(lines, k);
    StripKeeps(lines[i], '\n');
  }

  /** Every kept line is the stripped form of some input line. */
  lemma NonBlankFrom(lines: seq<string>, k: int) returns (i: int)
    requires 0 <= k < |NonBlank(lines)|
    ensures 0 <= i < |lines| && NonBlank(lines)[k] == Strip(lines[i])
  {
    NonBlankInOrder(lines);
    i := SubsequenceMember(NonBlank(lines), StripAll(lines), k);
  }

  /** Every element of a subsequence of `b` is an element of `b`, at the returned position. */
  lemma {:induction false} SubsequenceMember<T>(a: seq<T>, b: seq<T>, k: nat) returns (i: nat)
    requires Subsequence(a, b) && k < |a|
    ensures i < |b| && b[i] == a[k]
    decreases |b|
  {
    if a[0] == b[0] {
      if k == 0 {
        i := 0;
      } else {
        var i' := SubsequenceMember(a[1..], b[1..], k - 1);
        i := i' + 1;
      }
    } else {
      var i' := SubsequenceMember(a, b[1..], k);
      i := i' + 1;
    }
  }

  /** How many of `lines` are non-blank once stripped. */
  function NonBlankCount(lines: seq<string>): (n: nat)
    ensures n <= |lines|
    ensures n == 0 <== (forall i :: 0 <= i < |lines| ==> Strip(lines[i]) == [])
  {
    if lines == [] then 0
    else (if Strip(lines[0]) != [] then 1 else 0) + NonBlankCount(lines[1..])
  }

  /**
   * Nothing non-blank is dropped: the kept lines are exactly as many as the
   * non-blank input lines, and the non-blank line at index `i` is kept at the
   * position given by the number of non-blank lines before it.
   */
  lemma NonBlankComplete(lines: seq<string>, i: int)
    requires 0 <= i < |lines| && Strip(lines[i]) != []
    ensures |NonBlank(lines)| == NonBlankCount(lines)
    ensures NonBlankCount(lines[..i]) < |NonBlank(lines)|
    ensures NonBlank(lines)[NonBlankCount(lines[..i])] == Strip(lines[i])
  {
    var stripped := StripAll(lines);
    NonBlankLength(lines);
    NonBlankDropsEmpty(lines);
    NonBlankDropsEmpty(lines[..i]);
    assert StripAll(lines[..i]) == stripped[..i];
    DropEmptyComplete(stripped, i);
  }

  /** The non-empty entries of `xs`, in order. */
  function DropEmpty(xs: seq<string>): seq<string> {
    if xs == [] then [] else (if xs[0] != [] then [xs[0]] else []) + DropEmpty(xs[1..])
  }

  /** The number of non-empty entries of `xs`. */
  function CountNonEmpty(xs: seq<string>): nat {
    if xs == [] then 0 else (if xs[0] != [] then 1 else 0) + CountNonEmpty(xs[1..])
  }

  /** Keeping the non-blank lines is stripping every line and then dropping the empty ones. */
  lemma {:induction false} NonBlankDropsEmpty(lines: seq<string>)
    ensures NonBlank(lines) == DropEmpty(StripAll(lines))
    ensures NonBlankCount(lines) == CountNonEmpty(StripAll(lines))
  {
    if lines != [] {
      NonBlankDropsEmpty(lines[1..]);
      assert StripAll(lines)[1..] == StripAll(lines[1..]);
    }
  }

  /** The non-empty entry at index `i` is kept at the position given by the non-empty entries before it. */
  lemma {:induction false} DropEmptyComplete(xs: seq<string>, i: int)
    requires 0 <= i < |xs| && xs[i] != []
    ensures CountNonEmpty(xs[..i]) < |DropEmpty(xs)|
    ensures DropEmpty(xs)[CountNonEmpty(xs[..i])] == xs[i]
  {
    var head := if xs[0] != [] then [xs[0]] else [];
    assert DropEmpty(xs) == head + DropEmpty(xs[1..]);
    if i == 0 {
      assert xs[..i] == [];
    } else {
      DropEmptyComplete(xs[1..], i - 1);
      assert xs[..i][0] == xs[0] && xs[..i][1..] == xs[1..][..i - 1];
      assert CountNonEmpty(xs[..i]) == |head| + CountNonEmpty(xs[1..][..i - 1]);
    }
  }

  /** The number of kept lines is the number of non-blank lines. */
  lemma {:induction false} NonBlankLength(lines: seq<string>)
    ensures |NonBlank(lines)| == NonBlankCount(lines)
  {
    if lines != [] {
      NonBlankLength(lines[1..]);
    }
  }

  /**
   * `CleanLines` keeps exactly the first `numVariants` non-blank lines (all
   * but the last `-numVariants` of them for a negative count, as a Python
   * slice does), each at the position its order among the non-blank lines
   * gives it.
   */
  lemma CleanLinesComplete(text: string, numVariants: int, i: int)
    requires 0 <= i < |Split(Strip(text), '\n')|
    requires Strip(Split(Strip(text), '\n')[i]) != []
    ensures var lines := Split(Strip(text), '\n');
      var n := NonBlankCount(lines);
      var r := CleanLines(text, numVariants);
      && (numVariants >= 0 ==> |r| == if numVariants < n then numVariants else n)
      && (numVariants < 0 ==> |r| == if n + numVariants > 0 then n + numVariants else 0)
      && (NonBlankCount(lines[..i]) < |r| ==> r[NonBlankCount(lines[..i])] == Strip(lines[i]))
  {
    var lines := Split(Strip(text), '\n');
    NonBlankComplete(lines, i);
  }

  /** A prefix of a subsequence is a subsequence. */
  lemma {:induction false} PrefixSubsequence<T>(p: seq<T>, a: seq<T>, b: seq<T>)
    requires |p| <= |a| && p == a[..|p|] && Subsequence(a, b)
    ensures Subsequence(p, b)
    decreases |b|
  {
    if p != [] && b != [] {
      if a[0] == b[0] {
        assert p[1..] == a[1..][..|p| - 1];
        PrefixSubsequence(p[1..], a[1..], b[1..]);
      } else {
        PrefixSubsequence(p, a, b[1..]);
      }
    }
  }

  // ---------------------------------------------------------------------
  // The three tables and their updates
  // ---------------------------------------------------------------------

  /** The whole store: one map per table, plus the variants' insertion order. */
  datatype Tables = Tables(
    tests: map<string, TestRow>,
    variants: map<string, VariantRow>,
    variantOrder: seq<string>,
    sends: map<string, SendRow>)
  {
    /** Each row is filed under its own key, and the order lists every variant once. */
    ghost predicate WellFormed() {
      && (forall id :: id in tests ==> tests[id].testId == id)
      && (forall id :: id in variants ==> variants[id].variantId == id && variants[id].testId in tests)
      && (forall id :: id in sends ==> sends[id].sendId == id)
      && OrderKnown()
      && (forall id :: id in variants ==> id in variantOrder)
      && (forall i, j :: 0 <= i < j < |variantOrder| ==> variantOrder[i] != variantOrder[j])
    }

    predicate OrderKnown() {
      forall i :: 0 <= i < |variantOrder| ==> variantOrder[i] in variants
    }
  }

  const EmptyTables := Tables(map[], map[], [], map[])

  /** `f"{test_id}_v{i}"`. */
  function VariantId(testId: string, i: nat): string {
    testId + "_v" + NatToString(i)
  }

  /** Variants of one test get pairwise different ids. */
  lemma VariantIdInjective(testId: string, i: nat, j: nat)
    requires VariantId(testId, i) == VariantId(testId, j)
    ensures i == j
  {
    var n := |testId| + 2;
    assert VariantId(testId, i)[n..] == NatToString(i);
    assert VariantId(testId, j)[n..] == NatToString(j);
    NatToStringInjective(i, j);
  }

  /** `SELECT ... FROM variants WHERE test_id = ?`, in insertion order. */
  function RowsIn(order: seq<string>, variants: map<string, VariantRow>, testId: string): (rows: seq<VariantRow>)
    requires forall i :: 0 <= i < |order| ==> order[i] in variants
    ensures forall k :: 0 <= k < |rows| ==> rows[k].testId == testId && rows[k] in variants.Values
    ensures forall i :: 0 <= i < |order| && variants[order[i]].testId == testId ==> variants[order[i]] in rows
    decreases |order|
  {
    if order == [] then []
    else
      var last := order[|order| - 1];
      var rest := RowsIn(order[..|order| - 1], variants, testId);
      assert forall i :: 0 <= i < |order| - 1 ==> order[..|order| - 1][i] == order[i];
      rest + (if variants[last].testId == testId then [variants[last]] else [])
  }

  /** The rows of test `testId`. */
  function RowsOf(t: Tables, testId: string): seq<VariantRow>
    requires t.OrderKnown()
  {
    RowsIn(t.variantOrder, t.variants, testId)
  }

  /** Every selected row is the stored row of some position of the order. */
  lemma {:induction false} RowsInFrom(order: seq<string>, variants: map<string, VariantRow>, testId: string, k: int) returns (i: int)
    requires forall i :: 0 <= i < |order| ==> order[i] in variants
    requires 0 <= k < |RowsIn(order, variants, testId)|
    ensures 0 <= i < |order| && RowsIn(order, variants, testId)[k] == variants[order[i]]
    decreases |order|
  {
    var n := |order| - 1;
    var pre := order[..n];
    var rest := RowsIn(pre, variants, testId);
    if k < |rest| {
      i := RowsInFrom(pre, variants, testId, k);
    } else {
      i := n;
    }
  }

  /** An order without repeats, over rows filed under their own ids, selects rows with distinct ids. */
  lemma {:induction false} RowsInDistinct(order: seq<string>, variants: map<string, VariantRow>, testId: string)
    requires forall i :: 0 <= i < |order| ==> order[i] in variants && variants[order[i]].variantId == order[i]
    requires forall i, j :: 0 <= i < j < |order| ==> order[i] != order[j]
    ensures DistinctIds(RowsIn(order, variants, testId))
    decreases |order|
  {
    if order != [] {
      var n := |order| - 1;
      var pre := order[..n];
      RowsInDistinct(pre, variants, testId);
      var rest := RowsIn(pre, variants, testId);
      forall k | 0 <= k < |rest| ensures rest[k].variantId != order[n] {
        var i := RowsInFrom(pre, variants, testId, k);
      }
    }
  }

  /** `variant_id` is the primary key, so the rows read for one test have distinct ids. */
  lemma StoreRowsDistinct(t: Tables, testId: string)
    requires t.WellFormed()
    ensures DistinctIds(RowsOf(t, testId))
  {
    RowsInDistinct(t.variantOrder, t.variants, testId);
  }

  /** The row `create_test` inserts for content number `k`: fresh counters. */
  function NewRow(testId: string, k: nat, content: string): VariantRow {
    VariantRow(VariantId(testId, k), testId, content, 0, 0, 0, 0)
  }

  /** The rows for `contents`, as `create_test` inserts them. */
  function NewRows(testId: string, contents: seq<string>): (rows: seq<VariantRow>)
    ensures |rows| == |contents|
    ensures forall k :: 0 <= k < |rows| ==> rows[k] == NewRow(testId, k, contents[k])
  {
    seq(|contents|, k requires 0 <= k < |contents| => NewRow(testId, k, contents[k]))
  }

  /** One `INSERT INTO variants`. */
  function AddVariant(t: Tables, row: VariantRow): Tables {
    t.(variants := t.variants[row.variantId := row], variantOrder := t.variantOrder + [row.variantId])
  }

  /** The variant inserts of `create_test` for `contents`, one after the other. */
  function InsertVariants(t: Tables, testId: string, contents: seq<string>): (u: Tables)
    ensures u.tests == t.tests && u.sends == t.sends
    decreases |contents|
  {
    if contents == [] then t
    else
      var k := |contents| - 1;
      AddVariant(InsertVariants(t, testId, contents[..k]), NewRow(testId, k, contents[k]))
  }

  /** Whether some id `create_test` would insert already names a variant. */
  predicate VariantIdTaken(t: Tables, testId: string, n: nat) {
    exists k :: 0 <= k < n && VariantId(testId, k) in t.variants
  }

  /**
   * `create_test`: one `tests` row (status `running`, no winner) and one
   * variant row per content string. A clash on a primary key raises and
   * nothing is committed.
   */
  function AfterCreateTest(t: Tables, testId: string, name: string, kind: VariantType, contents: seq<string>, now: int): (r: Result<Tables, StoreError>)
    ensures r.Failure? <==> testId in t.tests || VariantIdTaken(t, testId, |contents|)
    ensures r.Failure? ==> r.error == (if testId in t.tests then DuplicateTestId(testId) else DuplicateVariantId(testId))
    ensures r.Success? ==> r.value.sends == t.sends && r.value.tests.Keys == t.tests.Keys + {testId}
  {
    if testId in t.tests then Failure(DuplicateTestId(testId))
    else if VariantIdTaken(t, testId, |contents|) then Failure(DuplicateVariantId(testId))
    else
      var withTest := t.(tests := t.tests[testId := TestRow(testId, name, kind, now, "running", None)]);
      Success(InsertVariants(withTest, testId, contents))
  }

  /** `UPDATE variants SET c = c + 1 WHERE variant_id = ?`: no row changes when the id is unknown. */
  function Bump(variants: map<string, VariantRow>, id: string, c: Counter): (r: map<string, VariantRow>)
    ensures r.Keys == variants.Keys
    ensures forall other :: other in variants && other != id ==> r[other] == variants[other]
    ensures id in variants ==> r[id] == variants[id].Incremented(c)
  {
    if id in variants then variants[id := variants[id].Incremented(c)] else variants
  }

  /** `record_send`: one new `sends` row and one more send on the variant. */
  function AfterRecordSend(t: Tables, variantId: string, email: string, sendId: string, now: int): (r: Result<Tables, StoreError>)
    ensures r.Failure? <==> sendId in t.sends
    ensures r.Failure? ==> r.error == DuplicateSendId(sendId)
    ensures r.Success? ==> r.value.tests == t.tests && r.value.variantOrder == t.variantOrder && sendId in r.value.sends
  {
    if sendId in t.sends then Failure(DuplicateSendId(sendId))
    else Success(t.(sends := t.sends[sendId := SendRow(sendId, variantId, email, now, None, None, None)],
                    variants := Bump(t.variants, variantId, Sends)))
  }

  /** `record_open`: overwrite `opened_at` and add one open, with no first-observation guard. */
  function AfterRecordOpen(t: Tables, sendId: string, now: int): (u: Tables)
    ensures u.tests == t.tests && u.variantOrder == t.variantOrder
    ensures u.sends.Keys == t.sends.Keys && u.variants.Keys == t.variants.Keys
    ensures sendId in t.sends ==> u.sends[sendId].openedAt == Some(now)
    ensures sendId !in t.sends ==> u == t
  {
    if sendId !in t.sends then t
    else
      var s := t.sends[sendId];
      t.(sends := t.sends[sendId := s.(openedAt := Some(now))],
         variants := Bump(t.variants, s.variantId, Opens))
  }

  /** `record_reply`: overwrite reply time and sentiment, add one reply, and one positive reply iff sentiment is "positive". */
  function AfterRecordReply(t: Tables, sendId: string, sentiment: string, now: int): (u: Tables)
    ensures u.tests == t.tests && u.variantOrder == t.variantOrder
    ensures u.sends.Keys == t.sends.Keys && u.variants.Keys == t.variants.Keys
    ensures sendId in t.sends ==> u.sends[sendId].repliedAt == Some(now) && u.sends[sendId].replySentiment == Some(sentiment)
    ensures sendId !in t.sends ==> u == t
  {
    if sendId !in t.sends then t
    else
      var s := t.sends[sendId];
      var bumped := Bump(t.variants, s.variantId, Replies);
      t.(sends := t.sends[sendId := s.(repliedAt := Some(now), replySentiment := Some(sentiment))],
         variants := if sentiment == "positive" then Bump(bumped, s.variantId, PositiveReplies) else bumped)
  }

  // ---------------------------------------------------------------------
  // Properties of the updates
  // ---------------------------------------------------------------------

  /** Rows listed through an order depend only on the rows the order names. */
  lemma {:induction false} RowsInSameRows(order: seq<string>, v1: map<string, VariantRow>, v2: map<string, VariantRow>, testId: string)
    requires forall i :: 0 <= i < |order| ==> order[i] in v1 && order[i] in v2 && v1[order[i]] == v2[order[i]]
    ensures RowsIn(order, v1, testId) == RowsIn(order, v2, testId)
  {
    if order != [] {
      RowsInSameRows(order[..|order| - 1], v1, v2, testId);
    }
  }

  /** A test nobody inserted rows for has no rows. */
  lemma {:induction false} RowsInNone(order: seq<string>, variants: map<string, VariantRow>, testId: string)
    requires forall i :: 0 <= i < |order| ==> order[i] in variants && variants[order[i]].testId != testId
    ensures RowsIn(order, variants, testId) == []
  {
    if order != [] {
      RowsInNone(order[..|order| - 1], variants, testId);
    }
  }

  /** Only the generated ids are new keys after the inserts. */
  lemma {:induction false} InsertVariantsKeys(t: Tables, testId: string, contents: seq<string>, id: string)
    requires id in InsertVariants(t, testId, contents).variants && id !in t.variants
    ensures exists k :: 0 <= k < |contents| && id == VariantId(testId, k)
    decreases |contents|
  {
    var k := |contents| - 1;
    if id != VariantId(testId, k) {
      InsertVariantsKeys(t, testId, contents[..k], id);
    }
  }

  /** When no generated id is taken, the next one is still free after the earlier inserts. */
  lemma NextIdFresh(t: Tables, testId: string, contents: seq<string>)
    requires contents != [] && !VariantIdTaken(t, testId, |contents|)
    ensures !VariantIdTaken(t, testId, |contents| - 1)
    ensures VariantId(testId, |contents| - 1) !in InsertVariants(t, testId, contents[..|contents| - 1]).variants
  {
    var k := |contents| - 1;
    var id := VariantId(testId, k);
    assert !(0 <= k < |contents| && id in t.variants);
    if id in InsertVariants(t, testId, contents[..k]).variants {
      InsertVariantsKeys(t, testId, contents[..k], id);
      var j :| 0 <= j < k && id == VariantId(testId, j);
      VariantIdInjective(testId, j, k);
    }
  }

  /** Inserting a row under a fresh id appends it to its test's rows and to no other test's. */
  lemma AddVariantRows(t: Tables, row: VariantRow, x: string)
    requires t.OrderKnown() && row.variantId !in t.variants
    ensures AddVariant(t, row).OrderKnown()
    ensures RowsOf(AddVariant(t, row), x) == RowsOf(t, x) + (if row.testId == x then [row] else [])
  {
    var u := AddVariant(t, row);
    assert u.variantOrder[..|u.variantOrder| - 1] == t.variantOrder;
    RowsInSameRows(t.variantOrder, t.variants, u.variants, x);
  }

  /** Inserting a row of a known test under a fresh id keeps the store well formed. */
  lemma AddVariantWellFormed(t: Tables, row: VariantRow)
    requires t.WellFormed() && row.variantId !in t.variants && row.testId in t.tests
    ensures AddVariant(t, row).WellFormed()
  {
    var u := AddVariant(t, row);
    var n := |t.variantOrder|;
    forall i, j | 0 <= i < j < |u.variantOrder| ensures u.variantOrder[i] != u.variantOrder[j] {
      if j == n { assert u.variantOrder[i] in t.variants; }
    }
  }

  /** The inserts append exactly the new rows to the test's rows. */
  lemma {:induction false} InsertVariantsRows(t: Tables, testId: string, contents: seq<string>)
    requires t.OrderKnown()
    requires !VariantIdTaken(t, testId, |contents|)
    ensures InsertVariants(t, testId, contents).OrderKnown()
    ensures RowsOf(InsertVariants(t, testId, contents), testId) == RowsOf(t, testId) + NewRows(testId, contents)
    decreases |contents|
  {
    if contents != [] {
      var k := |contents| - 1;
      var prev := contents[..k];
      NextIdFresh(t, testId, contents);
      InsertVariantsRows(t, testId, prev);
      var v := InsertVariants(t, testId, prev);
      var row := NewRow(testId, k, contents[k]);
      assert InsertVariants(t, testId, contents) == AddVariant(v, row);
      AddVariantRows(v, row, testId);
      NewRowsSnoc(testId, contents);
    }
  }

  lemma NewRowsSnoc(testId: string, contents: seq<string>)
    requires contents != []
    ensures NewRows(testId, contents) == NewRows(testId, contents[..|contents| - 1]) + [NewRow(testId, |contents| - 1, contents[|contents| - 1])]
  {
    var k := |contents| - 1;
    var a, b := NewRows(testId, contents), NewRows(testId, contents[..k]) + [NewRow(testId, k, contents[k])];
    forall j | 0 <= j < |a| ensures a[j] == b[j] {
      if j < k { assert contents[..k][j] == contents[j]; }
    }
  }

  /** The inserts leave the rows of every other test alone. */
  lemma {:induction false} InsertVariantsOtherRows(t: Tables, testId: string, contents: seq<string>, other: string)
    requires t.OrderKnown() && other != testId
    requires !VariantIdTaken(t, testId, |contents|)
    ensures InsertVariants(t, testId, contents).OrderKnown()
    ensures RowsOf(InsertVariants(t, testId, contents), other) == RowsOf(t, other)
    decreases |contents|
  {
    if contents != [] {
      var k := |contents| - 1;
      var prev := contents[..k];
      NextIdFresh(t, testId, contents);
      InsertVariantsOtherRows(t, testId, prev, other);
      var v := InsertVariants(t, testId, prev);
      var row := NewRow(testId, k, contents[k]);
      assert InsertVariants(t, testId, contents) == AddVariant(v, row);
      AddVariantRows(v, row, other);
    }
  }

  /** The inserts for a registered test with free ids keep the store well formed. */
  lemma {:induction false} InsertVariantsWellFormed(t: Tables, testId: string, contents: seq<string>)
    requires t.WellFormed() && testId in t.tests
    requires !VariantIdTaken(t, testId, |contents|)
    ensures InsertVariants(t, testId, contents).WellFormed()
    decreases |contents|
  {
    if contents != [] {
      var k := |contents| - 1;
      NextIdFresh(t, testId, contents);
      InsertVariantsWellFormed(t, testId, contents[..k]);
      AddVariantWellFormed(InsertVariants(t, testId, contents[..k]), NewRow(testId, k, contents[k]));
    }
  }

  /**
   * A successful `create_test` registers a running test without winner whose
   * rows are exactly one fresh-counter row per content string, ids
   * `test_id + "_v" + index`; the rows of every other test are unchanged.
   */
  lemma CreateTestEffect(t: Tables, testId: string, name: string, kind: VariantType, contents: seq<string>, now: int, other: string)
    requires t.WellFormed()
    ensures AfterCreateTest(t, testId, name, kind, contents, now).Failure? <==>
      testId in t.tests || VariantIdTaken(t, testId, |contents|)
    ensures AfterCreateTest(t, testId, name, kind, contents, now).Success? ==>
      var u := AfterCreateTest(t, testId, name, kind, contents, now).value;
      && u.WellFormed()
      && u.tests[testId] == TestRow(testId, name, kind, now, "running", None)
      && RowsOf(u, testId) == NewRows(testId, contents)
      && (other != testId ==> RowsOf(u, other) == RowsOf(t, other))
      && u.sends == t.sends
  {
    if testId !in t.tests && !VariantIdTaken(t, testId, |contents|) {
      var w := t.(tests := t.tests[testId := TestRow(testId, name, kind, now, "running", None)]);
      assert w.WellFormed();
      InsertVariantsWellFormed(w, testId, contents);
      InsertVariantsRows(w, testId, contents);
      if other != testId {
        InsertVariantsOtherRows(w, testId, contents, other);
      }
      RowsInNone(t.variantOrder, t.variants, testId);
    }
  }

  /** An empty content list still creates the test, with no variants and no error. */
  lemma CreateTestEmpty(t: Tables, testId: string, name: string, kind: VariantType, now: int)
    requires t.WellFormed() && testId !in t.tests
    ensures AfterCreateTest(t, testId, name, kind, [], now).Success?
    ensures RowsOf(AfterCreateTest(t, testId, name, kind, [], now).value, testId) == []
  {
    CreateTestEffect(t, testId, name, kind, [], now, testId);
  }

  /**
   * `record_send` adds exactly one send row (the variant, address and time
   * given, not yet opened or replied to) and leaves every other send row and
   * the `tests` table as they were.
   */
  lemma RecordSendEffect(t: Tables, variantId: string, email: string, sendId: string, now: int)
    requires sendId !in t.sends
    ensures AfterRecordSend(t, variantId, email, sendId, now).Success?
    ensures var u := AfterRecordSend(t, variantId, email, sendId, now).value;
      && u.sends.Keys == t.sends.Keys + {sendId} && |u.sends| == |t.sends| + 1
      && (forall id :: id in t.sends ==> u.sends[id] == t.sends[id])
      && u.sends[sendId].variantId == variantId && u.sends[sendId].prospectEmail == email
      && u.sends[sendId].sentAt == now
      && u.sends[sendId].openedAt.None? && u.sends[sendId].repliedAt.None? && u.sends[sendId].replySentiment.None?
      && u.tests == t.tests
  {
    var row := SendRow(sendId, variantId, email, now, None, None, None);
    assert AfterRecordSend(t, variantId, email, sendId, now).value.sends == t.sends[sendId := row];
    InsertFresh(t.sends, sendId, row);
  }

  /** Inserting a fresh key keeps every old entry and adds exactly one. */
  lemma InsertFresh<K, V>(m: map<K, V>, k: K, v: V)
    requires k !in m
    ensures m[k := v].Keys == m.Keys + {k} && |m[k := v]| == |m| + 1
    ensures forall x :: x in m ==> m[k := v][x] == m[x]
    ensures m[k := v][k] == v
  {
  }

  /**
   * `record_send` adds one send to the named variant, keeps its other
   * columns, and leaves every other variant and the variant order alone.
   */
  lemma RecordSendCounts(t: Tables, variantId: string, email: string, sendId: string, now: int)
    requires sendId !in t.sends
    ensures var u := AfterRecordSend(t, variantId, email, sendId, now).value;
      && u.variants.Keys == t.variants.Keys
      && (variantId in t.variants ==>
            var v, w := t.variants[variantId], u.variants[variantId];
            && w.sends == v.sends + 1
            && w.opens == v.opens && w.replies == v.replies && w.positiveReplies == v.positiveReplies
            && w.content == v.content && w.testId == v.testId)
      && (forall id :: id in t.variants && id != variantId ==> u.variants[id] == t.variants[id])
      && u.variantOrder == t.variantOrder
  {
    var u := AfterRecordSend(t, variantId, email, sendId, now).value;
    assert u.variants == Bump(t.variants, variantId, Sends);
  }

  /**
   * `record_open` on a known send: that send's `opened_at` becomes the time
   * given (its other columns stay), its variant gains one open and nothing
   * else; every other send and variant is unchanged.
   */
  lemma RecordOpenEffect(t: Tables, sendId: string, now: int)
    requires sendId in t.sends
    ensures var u := AfterRecordOpen(t, sendId, now);
      var s, s' := t.sends[sendId], u.sends[sendId];
      && u.sends.Keys == t.sends.Keys
      && s'.openedAt == Some(now)
      && s'.sendId == s.sendId && s'.variantId == s.variantId && s'.prospectEmail == s.prospectEmail
      && s'.sentAt == s.sentAt && s'.repliedAt == s.repliedAt && s'.replySentiment == s.replySentiment
      && (forall id :: id in t.sends && id != sendId ==> u.sends[id] == t.sends[id])
      && u.variants.Keys == t.variants.Keys
      && (s.variantId in t.variants ==>
            var v, w := t.variants[s.variantId], u.variants[s.variantId];
            && w.opens == v.opens + 1
            && w.sends == v.sends && w.replies == v.replies && w.positiveReplies == v.positiveReplies
            && w.content == v.content && w.testId == v.testId)
      && (forall id :: id in t.variants && id != s.variantId ==> u.variants[id] == t.variants[id])
      && u.tests == t.tests && u.variantOrder == t.variantOrder
  {
  }

  /** `record_open` counts every call: two calls for the same send add two opens. */
  lemma RecordOpenTwice(t: Tables, sendId: string, now1: int, now2: int)
    requires sendId in t.sends && t.sends[sendId].variantId in t.variants
    ensures var u := AfterRecordOpen(AfterRecordOpen(t, sendId, now1), sendId, now2);
      var v := t.sends[sendId].variantId;
      && u.variants[v].opens == t.variants[v].opens + 2
      && u.sends[sendId].openedAt == Some(now2)
      && u.variants[v].sends == t.variants[v].sends
  {
  }

  /** An unknown send id changes nothing. */
  lemma RecordUnknownSend(t: Tables, sendId: string, sentiment: string, now: int)
    requires sendId !in t.sends
    ensures AfterRecordOpen(t, sendId, now) == t
    ensures AfterRecordReply(t, sendId, sentiment, now) == t
  {
  }

  /** `record_reply` adds one reply, and one positive reply exactly when the sentiment is "positive". */
  lemma RecordReplyEffect(t: Tables, sendId: string, sentiment: string, now: int)
    requires sendId in t.sends && t.sends[sendId].variantId in t.variants
    ensures var u := AfterRecordReply(t, sendId, sentiment, now);
      var v := t.sends[sendId].variantId;
      && u.variants[v].replies == t.variants[v].replies + 1
      && u.variants[v].positiveReplies == t.variants[v].positiveReplies + (if sentiment == "positive" then 1 else 0)
      && u.variants[v].opens == t.variants[v].opens
      && u.variants[v].sends == t.variants[v].sends
      && u.variants[v].content == t.variants[v].content && u.variants[v].testId == t.variants[v].testId
      && u.sends.Keys == t.sends.Keys
      && u.sends[sendId].repliedAt == Some(now) && u.sends[sendId].replySentiment == Some(sentiment)
      && u.sends[sendId].openedAt == t.sends[sendId].openedAt
      && u.sends[sendId].sendId == t.sends[sendId].sendId && u.sends[sendId].variantId == v
      && u.sends[sendId].prospectEmail == t.sends[sendId].prospectEmail && u.sends[sendId].sentAt == t.sends[sendId].sentAt
      && (forall id :: id in t.sends && id != sendId ==> u.sends[id] == t.sends[id])
      && u.variants.Keys == t.variants.Keys
      && (forall id :: id in t.variants && id != v ==> u.variants[id] == t.variants[id])
      && u.tests == t.tests && u.variantOrder == t.variantOrder
  {
  }

  /** Without a first-observation guard, opens can overtake sends: one send opened twice. */
  lemma OpensMayExceedSends()
    ensures var t0 := Tables(map["t" := TestRow("t", "n", SubjectLine, 0, "running", None)],
                             map["t_v0" := VariantRow("t_v0", "t", "hi", 0, 0, 0, 0)], ["t_v0"], map[]);
      var t1 := AfterRecordSend(t0, "t_v0", "a@b.co", "s", 1).value;
      var t3 := AfterRecordOpen(AfterRecordOpen(t1, "s", 2), "s", 3);
      t3.variants["t_v0"].opens == 2 > t3.variants["t_v0"].sends == 1
  {
  }

  // ---------------------------------------------------------------------
  // The significance decision
  // ---------------------------------------------------------------------

  const MinSendsPerVariant := 50
  const SignificanceLevel := 0.05

  /** What `check_significance` returns. */
  datatype Significance =
    | NotSignificant(reason: string)
    | Evaluated(significant: bool, pValue: real, winnerId: Option<string>,
                winnerRate: real, variantRates: map<string, real>)
    | TestRaised   // `chi2_contingency` raises `ValueError` on the table it is given

  /** Successes of a row under `metric`: opens for "opens", replies for anything else. */
  function Successes(v: VariantRow, metric: string): int {
    if metric == "opens" then v.opens else v.replies
  }

  function Rates(rows: seq<VariantRow>, metric: string): (rates: seq<real>)
    ensures |rates| == |rows|
    ensures forall i :: 0 <= i < |rows| ==> rates[i] == Rate(Successes(rows[i], metric), rows[i].sends)
  {
    seq(|rows|, i requires 0 <= i < |rows| => Rate(Successes(rows[i], metric), rows[i].sends))
  }

  /** `min(sends)`. */
  function MinSends(rows: seq<VariantRow>): (m: int)
    requires rows != []
    ensures forall i :: 0 <= i < |rows| ==> m <= rows[i].sends
    ensures exists i :: 0 <= i < |rows| && m == rows[i].sends
  {
    if |rows| == 1 then rows[0].sends
    else
      var m := MinSends(rows[1..]);
      assert forall i :: 1 <= i < |rows| ==> rows[1..][i - 1] == rows[i];
      if rows[0].sends <= m then rows[0].sends else m
  }

  /** `max(xs)`. */
  function Max(xs: seq<real>): (m: real)
    requires xs != []
    ensures forall i :: 0 <= i < |xs| ==> xs[i] <= m
    ensures m in xs
  {
    if |xs| == 1 then xs[0]
    else
      var m := Max(xs[1..]);
      assert forall i :: 1 <= i < |xs| ==> xs[1..][i - 1] == xs[i];
      if xs[0] >= m then xs[0] else m
  }

  /** `xs.index(x)`: the first position of `x`. */
  function IndexOf(xs: seq<real>, x: real): (k: nat)
    requires x in xs
    ensures k < |xs| && xs[k] == x
    ensures forall j :: 0 <= j < k ==> xs[j] != x
  {
    if xs[0] == x then 0 else 1 + IndexOf(xs[1..], x)
  }

  /** `{rows[i][0]: rates[i] for i in range(len(rows))}`: a later row wins a repeated id. */
  function RateMap(rows: seq<VariantRow>, rates: seq<real>): (m: map<string, real>)
    requires |rates| == |rows|
    ensures m.Keys == set i | 0 <= i < |rows| :: rows[i].variantId
    decreases |rows|
  {
    if rows == [] then map[]
    else
      var n := |rows| - 1;
      RateMap(rows[..n], rates[..n])[rows[n].variantId := rates[n]]
  }

  predicate DistinctIds(rows: seq<VariantRow>) {
    forall i, j :: 0 <= i < j < |rows| ==> rows[i].variantId != rows[j].variantId
  }

  /** With distinct ids every row's own rate is in the map. */
  lemma {:induction false} RateMapAt(rows: seq<VariantRow>, rates: seq<real>, i: int)
    requires |rates| == |rows| && DistinctIds(rows) && 0 <= i < |rows|
    ensures RateMap(rows, rates)[rows[i].variantId] == rates[i]
  {
    var n := |rows| - 1;
    if i < n {
      RateMapAt(rows[..n], rates[..n], i);
    }
  }

  /** The successes of all rows, the first row of the contingency table summed. */
  function TotalSuccesses(rows: seq<VariantRow>, metric: string): int {
    if rows == [] then 0 else Successes(rows[0], metric) + TotalSuccesses(rows[1..], metric)
  }

  /** The failures `sends - successes` of all rows, the second row of the table summed. */
  function TotalFailures(rows: seq<VariantRow>, metric: string): int {
    if rows == [] then 0 else rows[0].sends - Successes(rows[0], metric) + TotalFailures(rows[1..], metric)
  }

  /**
   * Whether `chi2_contingency` accepts the table `[successes, failures]`
   * whose columns are the rows' sends: it raises `ValueError` on a negative
   * entry and on a zero expected frequency, which, with every column sum
   * positive, is a row of the table that sums to zero.
   */
  predicate TableAccepted(rows: seq<VariantRow>, metric: string) {
    && (forall i :: 0 <= i < |rows| ==> 0 <= Successes(rows[i], metric) <= rows[i].sends)
    && TotalSuccesses(rows, metric) > 0 && TotalFailures(rows, metric) > 0
  }

  /** The message for too few sends, naming the smallest send count. */
  function SampleTooSmall(minSends: int): string {
    "Need 50+ sends per variant (min: " + IntToString(minSends) + ")"
  }

  /**
   * `check_significance` once the rows of the test are read and the p-value of
   * the chi-squared test on `[successes, failures]` is known. The test
   * raises on more opens or replies than sends, and when no variant had a
   * success or every send was one.
   */
  function Decide(rows: seq<VariantRow>, metric: string, pValue: real): (d: Significance)
    ensures |rows| < 2 ==> d == NotSignificant("Need at least 2 variants")
    ensures |rows| >= 2 && MinSends(rows) < MinSendsPerVariant ==> d == NotSignificant(SampleTooSmall(MinSends(rows)))
    ensures d.NotSignificant? <==> |rows| < 2 || exists i :: 0 <= i < |rows| && rows[i].sends < MinSendsPerVariant
    ensures d.Evaluated? <==>
      && |rows| >= 2 && (forall i :: 0 <= i < |rows| ==> rows[i].sends >= MinSendsPerVariant)
      && TableAccepted(rows, metric)
    ensures d.Evaluated? ==>
      && d.pValue == pValue
      && d.significant == (pValue < SignificanceLevel)
      && (d.winnerId.Some? <==> d.significant)
      && d.variantRates.Keys == (set i | 0 <= i < |rows| :: rows[i].variantId)
      && (exists w :: 0 <= w < |rows| && FirstBest(rows, metric, w) && d.winnerRate == Rate(Successes(rows[w], metric), rows[w].sends)
                    && (d.significant ==> d.winnerId == Some(rows[w].variantId)))
  {
    if |rows| < 2 then NotSignificant("Need at least 2 variants")
    else if MinSends(rows) < MinSendsPerVariant then NotSignificant(SampleTooSmall(MinSends(rows)))
    else if !TableAccepted(rows, metric) then TestRaised
    else
      var significant := pValue < SignificanceLevel;
      var rates := Rates(rows, metric);
      var w := IndexOf(rates, Max(rates));
      assert FirstBest(rows, metric, w);
      Evaluated(significant, pValue, if significant then Some(rows[w].variantId) else None,
                rates[w], RateMap(rows, rates))
  }

  /** Row `w` has the highest rate under `metric`, and no earlier row reaches it. */
  predicate FirstBest(rows: seq<VariantRow>, metric: string, w: int)
    requires 0 <= w < |rows|
  {
    var best := Rate(Successes(rows[w], metric), rows[w].sends);
    && (forall j :: 0 <= j < |rows| ==> Rate(Successes(rows[j], metric), rows[j].sends) <= best)
    && (forall j :: 0 <= j < w ==> Rate(Successes(rows[j], metric), rows[j].sends) < best)
  }

  /** Each variant's own rate is reported when the ids are distinct. */
  lemma DecideRates(rows: seq<VariantRow>, metric: string, pValue: real, i: int)
    requires DistinctIds(rows) && 0 <= i < |rows|
    requires Decide(rows, metric, pValue).Evaluated?
    ensures Decide(rows, metric, pValue).variantRates[rows[i].variantId] == Rate(Successes(rows[i], metric), rows[i].sends)
  {
    RateMapAt(rows, Rates(rows, metric), i);
  }

  /** Two variants of 60 sends where one was opened 70 times: the test raises instead of deciding. */
  lemma OverCountRaises(a: VariantRow, b: VariantRow, pValue: real)
    requires a.sends == 60 && b.sends == 60 && a.opens == 70 && b.opens == 10
    ensures Decide([a, b], "opens", pValue) == TestRaised
  {
    assert MinSends([a, b]) == 60;
    assert !(0 <= Successes([a, b][0], "opens") <= [a, b][0].sends);
  }

  /** Two variants of 60 sends and no reply yet: the test on replies raises rather than reporting no difference. */
  lemma NoRepliesRaises(a: VariantRow, b: VariantRow, pValue: real)
    requires a.sends == 60 && b.sends == 60 && a.replies == 0 && b.replies == 0
    ensures Decide([a, b], "replies", pValue) == TestRaised
  {
    assert MinSends([a, b]) == 60;
    assert [a, b][1..] == [b] && [b][1..] == [];
    assert TotalSuccesses([b], "replies") == 0;
    assert TotalSuccesses([a, b], "replies") == 0;
  }

  /** Two variants with 40 sends each are not significant, whatever else is counted. */
  lemma SmallSampleScenario(a: VariantRow, b: VariantRow, metric: string, pValue: real)
    requires a.sends == 40 && b.sends == 40
    ensures Decide([a, b], metric, pValue) == NotSignificant("Need 50+ sends per variant (min: 40)")
  {
    assert MinSends([a, b]) == 40;
    assert NatToString(40) == NatToString(4) + [Digit(0)];
  }

  // ---------------------------------------------------------------------
  // ABTestManager
  // ---------------------------------------------------------------------

  /** The store as an object whose methods update its tables in place. */
  class ABTestManager {
    var tests: map<string, TestRow>
    var variants: map<string, VariantRow>
    var variantOrder: seq<string>
    var sends: map<string, SendRow>

    function Snapshot(): Tables
      reads this
    {
      Tables(tests, variants, variantOrder, sends)
    }

    ghost predicate Valid()
      reads this
    {
      Snapshot().WellFormed()
    }

    /** `_init_db` on a database file that already holds `existing` (empty for a new file). */
    constructor (existing: Tables)
      requires existing.WellFormed()
      ensures Valid() && Snapshot() == existing
    {
      tests, variants, variantOrder, sends := existing.tests, existing.variants, existing.variantOrder, existing.sends;
    }

    /** `create_test` with the generated id `testId` and the clock reading `now`. */
    method CreateTest(testName: string, variantType: VariantType, contents: seq<string>, testId: string, now: int)
      returns (r: Result<string, StoreError>)
      requires Valid()
      modifies this
      ensures Valid()
      ensures AfterCreateTest(old(Snapshot()), testId, testName, variantType, contents, now).Success? ==>
        r == Success(testId) && Snapshot() == AfterCreateTest(old(Snapshot()), testId, testName, variantType, contents, now).value
      ensures AfterCreateTest(old(Snapshot()), testId, testName, variantType, contents, now).Failure? ==>
        r == Failure(AfterCreateTest(old(Snapshot()), testId, testName, variantType, contents, now).error) && Snapshot() == old(Snapshot())
    {
      if testId in tests {
        return Failure(DuplicateTestId(testId));
      }
      var taken := VariantIdClash(testId, |contents|);
      if taken {
        return Failure(DuplicateVariantId(testId));
      }
      tests := tests[testId := TestRow(testId, testName, variantType, now, "running", None)];
      ghost var start := Snapshot();
      InsertRows(testId, contents);
      InsertVariantsWellFormed(start, testId, contents);
      r := Success(testId);
    }

    /** Whether one of the first `n` variant ids of `testId` already names a variant. */
    method VariantIdClash(testId: string, n: nat) returns (taken: bool)
      ensures taken == VariantIdTaken(Snapshot(), testId, n)
    {
      var k := 0;
      while k < n
        invariant 0 <= k <= n
        invariant forall j :: 0 <= j < k ==> VariantId(testId, j) !in variants
      {
        if VariantId(testId, k) in variants {
          return true;
        }
        k := k + 1;
      }
      return false;
    }

    /** The variant inserts of `create_test`: one row per content string, in order. */
    method InsertRows(testId: string, contents: seq<string>)
      modifies this
      ensures Snapshot() == InsertVariants(old(Snapshot()), testId, contents)
    {
      ghost var start := Snapshot();
      var i := 0;
      while i < |contents|
        invariant 0 <= i <= |contents|
        invariant Snapshot() == InsertVariants(start, testId, contents[..i])
      {
        var row := NewRow(testId, i, contents[i]);
        variants := variants[row.variantId := row];
        variantOrder := variantOrder + [row.variantId];
        assert contents[..i + 1][..i] == contents[..i];
        i := i + 1;
      }
      assert contents[..i] == contents;
    }

    /** `get_variant_for_send`: some variant of the test, chosen at random; an error when it has none. */
    method GetVariantForSend(testId: string) returns (r: Result<(string, string), StoreError>)
      requires Valid()
      ensures r.Failure? <==> RowsOf(Snapshot(), testId) == []
      ensures r.Failure? ==> r.error == NoVariants(testId)
      ensures r.Success? ==> exists v :: v in variants.Values && v.testId == testId && r.value == (v.variantId, v.content)
    {
      var rows := RowsOf(Snapshot(), testId);
      if rows == [] {
        return Failure(NoVariants(testId));
      }
      var k :| 0 <= k < |rows|;
      r := Success((rows[k].variantId, rows[k].content));
    }

    /** `record_send` with the generated id `sendId`. */
    method RecordSend(variantId: string, prospectEmail: string, sendId: string, now: int)
      returns (r: Result<string, StoreError>)
      requires Valid()
      modifies this
      ensures Valid()
      ensures sendId in old(sends) ==> r == Failure(DuplicateSendId(sendId)) && Snapshot() == old(Snapshot())
      ensures sendId !in old(sends) ==> r == Success(sendId) && Snapshot() == AfterRecordSend(old(Snapshot()), variantId, prospectEmail, sendId, now).value
    {
      if sendId in sends {
        return Failure(DuplicateSendId(sendId));
      }
      sends := sends[sendId := SendRow(sendId, variantId, prospectEmail, now, None, None, None)];
      variants := Bump(variants, variantId, Sends);
      r := Success(sendId);
    }

    /** `record_open`. */
    method RecordOpen(sendId: string, now: int)
      requires Valid()
      modifies this
      ensures Valid()
      ensures Snapshot() == AfterRecordOpen(old(Snapshot()), sendId, now)
    {
      if sendId in sends {
        var s := sends[sendId];
        sends := sends[sendId := s.(openedAt := Some(now))];
        variants := Bump(variants, s.variantId, Opens);
      }
    }

    /** `record_reply`. */
    method RecordReply(sendId: string, sentiment: string, now: int)
      requires Valid()
      modifies this
      ensures Valid()
      ensures Snapshot() == AfterRecordReply(old(Snapshot()), sendId, sentiment, now)
    {
      if sendId in sends {
        var s := sends[sendId];
        sends := sends[sendId := s.(repliedAt := Some(now), replySentiment := Some(sentiment))];
        variants := Bump(variants, s.variantId, Replies);
        if sentiment == "positive" {
          variants := Bump(variants, s.variantId, PositiveReplies);
        }
      }
    }

    /** `check_significance`, given the chi-squared p-value for the current counters. */
    method CheckSignificance(testId: string, metric: string, pValue: real) returns (d: Significance)
      requires Valid()
      ensures d == Decide(RowsOf(Snapshot(), testId), metric, pValue)
      ensures var rows := RowsOf(Snapshot(), testId);
        d.Evaluated? ==> forall i :: 0 <= i < |rows| ==>
          rows[i].variantId in d.variantRates && d.variantRates[rows[i].variantId] == Rate(Successes(rows[i], metric), rows[i].sends)
    {
      var rows := RowsOf(Snapshot(), testId);
      d := Decide(rows, metric, pValue);
      if d.Evaluated? {
        StoreRowsDistinct(Snapshot(), testId);
        forall i | 0 <= i < |rows|
          ensures rows[i].variantId in d.variantRates && d.variantRates[rows[i].variantId] == Rate(Successes(rows[i], metric), rows[i].sends)
        {
          DecideRates(rows, metric, pValue, i);
        }
      }
    }
  }
}
