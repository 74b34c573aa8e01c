/**
 * The pure rules inside the question-generation loop: which videos are queued, the user
 * message sent with each, extracting the JSON object from the reply, allocating an `oid`
 * for a new video, numbering the questions, and re-finding the correct option after the
 * options are shuffled. The model call, the shuffle's randomness and all file reads and
 * writes are outside; the shuffle's outcome is a parameter.
 */
module Generation {
  import opened Results
  import opened Seqs

  // ----- the video queue -----

  /** One row of the `video_id` / `caption` columns. */
  datatype Row = Row(video: string, caption: string)

  /**
   * `drop_duplicates(subset=["video_id"])`: the first row of each video, in order. `seen`
   * holds the videos already met.
   */
  function DropDuplicateIds(rows: seq<Row>, seen: set<string>): (r: seq<Row>)
    ensures forall k :: 0 <= k < |r| ==> r[k] in rows && r[k].video !in seen
    decreases |rows|
  {
    if |rows| == 0 then []
    else if rows[0].video in seen then DropDuplicateIds(rows[1..], seen)
    else [rows[0]] + DropDuplicateIds(rows[1..], seen + {rows[0].video})
  }

  /** No video appears on two rows. */
  predicate UniqueVideos(rows: seq<Row>) {
    forall i, j :: 0 <= i < j < |rows| ==> rows[i].video != rows[j].video
  }

  /** Each video id appears once after dropping duplicates. */
  lemma {:induction false} DropDuplicateIdsDistinct(rows: seq<Row>, seen: set<string>)
    ensures UniqueVideos(DropDuplicateIds(rows, seen))
    decreases |rows|
  {
    if |rows| > 0 && rows[0].video !in seen {
      DropDuplicateIdsDistinct(rows[1..], seen + {rows[0].video});
      var rest := DropDuplicateIds(rows[1..], seen + {rows[0].video});
      var r := DropDuplicateIds(rows, seen);
      assert r == [rows[0]] + rest;
      forall i, j | 0 <= i < j < |r|
        ensures r[i].video != r[j].video
      {
        assert r[j] == rest[j - 1];
        if i > 0 {
          assert r[i] == rest[i - 1];
        }
      }
    } else if |rows| > 0 {
      DropDuplicateIdsDistinct(rows[1..], seen);
      assert DropDuplicateIds(rows, seen) == DropDuplicateIds(rows[1..], seen);
    }
  }

  /** `idx` picks the rows of `r` out of `rows` at strictly increasing positions. */
  predicate PickedInOrder(idx: seq<nat>, r: seq<Row>, rows: seq<Row>) {
    && |idx| == |r|
    && (forall q :: 0 <= q < |idx| ==> idx[q] < |rows| && r[q] == rows[idx[q]])
    && (forall p, q :: 0 <= p < q < |idx| ==> idx[p] < idx[q])
  }

  /** Positions one further along: `idx` read as positions in `rows` rather than `rows[1..]`. */
  function Shift(idx: seq<nat>): (r: seq<nat>)
    ensures |r| == |idx| && forall q :: 0 <= q < |idx| ==> r[q] == idx[q] + 1
  {
    seq(|idx|, q requires 0 <= q < |idx| => idx[q] + 1)
  }

  /** A pick from the tail is a pick from the whole, with or without the head in front. */
  lemma ShiftPicked(idx: seq<nat>, r: seq<Row>, rows: seq<Row>)
    requires |rows| > 0 && PickedInOrder(idx, r, rows[1..])
    ensures PickedInOrder(Shift(idx), r, rows)
    ensures PickedInOrder([0] + Shift(idx), [rows[0]] + r, rows)
  {
    var sh := Shift(idx);
    forall q | 0 <= q < |idx|
      ensures sh[q] < |rows| && r[q] == rows[sh[q]]
    {
      assert rows[1..][idx[q]] == rows[idx[q] + 1];
    }
    ConsPicked(sh, r, rows);
  }

  lemma ConsPicked(sh: seq<nat>, r: seq<Row>, rows: seq<Row>)
    requires |rows| > 0 && PickedInOrder(sh, r, rows)
    requires forall q :: 0 <= q < |sh| ==> sh[q] > 0
    ensures PickedInOrder([0] + sh, [rows[0]] + r, rows)
  {
    var full := [0] + sh;
    var rr := [rows[0]] + r;
    assert forall q :: 1 <= q < |full| ==> full[q] == sh[q - 1] && rr[q] == r[q - 1];
  }

  /** The surviving rows keep their input order: they are a subsequence of the input. */
  lemma {:induction false} DropDuplicateIdsInOrder(rows: seq<Row>, seen: set<string>)
    ensures exists idx :: PickedInOrder(idx, DropDuplicateIds(rows, seen), rows)
    decreases |rows|
  {
    var r := DropDuplicateIds(rows, seen);
    if |rows| == 0 {
      assert PickedInOrder([], r, rows);
    } else if rows[0].video in seen {
      DropDuplicateIdsInOrder(rows[1..], seen);
      var tail :| PickedInOrder(tail, DropDuplicateIds(rows[1..], seen), rows[1..]);
      ShiftPicked(tail, DropDuplicateIds(rows[1..], seen), rows);
      assert PickedInOrder(Shift(tail), r, rows);
    } else {
      var seen' := seen + {rows[0].video};
      DropDuplicateIdsInOrder(rows[1..], seen');
      var tail :| PickedInOrder(tail, DropDuplicateIds(rows[1..], seen'), rows[1..]);
      ShiftPicked(tail, DropDuplicateIds(rows[1..], seen'), rows);
      assert PickedInOrder([0] + Shift(tail), r, rows);
    }
  }

  /** Every video not met before keeps a row, and the row kept is its first one. */
  lemma {:induction false} DropDuplicateIdsKeepsFirst(rows: seq<Row>, seen: set<string>, i: nat)
    requires i < |rows| && rows[i].video !in seen
    requires forall j :: 0 <= j < i ==> rows[j].video != rows[i].video
    ensures rows[i] in DropDuplicateIds(rows, seen)
    decreases |rows|
  {
    if i > 0 {
      if rows[0].video in seen {
        DropDuplicateIdsKeepsFirst(rows[1..], seen, i - 1);
      } else {
        DropDuplicateIdsKeepsFirst(rows[1..], seen + {rows[0].video}, i - 1);
      }
    }
  }

  /**
   * `df[~df['video_id'].isin(processed_videos | error_videos)]`: the rows whose video has
   * neither been processed nor failed, in order.
   */
  function Pending(rows: seq<Row>, processed: set<string>, failed: set<string>): (r: seq<Row>)
    ensures forall k :: 0 <= k < |r| ==> r[k] in rows && r[k].video !in processed + failed
    decreases |rows|
  {
    if |rows| == 0 then []
    else
      var rest := Pending(rows[1..], processed, failed);
      if rows[0].video in processed + failed then rest else [rows[0]] + rest
  }

  /** No row whose video is still outstanding is dropped. */
  lemma {:induction false} PendingComplete(rows: seq<Row>, processed: set<string>, failed: set<string>, i: nat)
    requires i < |rows| && rows[i].video !in processed + failed
    ensures rows[i] in Pending(rows, processed, failed)
    decreases |rows|
  {
    if i > 0 {
      PendingComplete(rows[1..], processed, failed, i - 1);
    }
  }

  /** One entry of the error log. */
  datatype ErrorEntry = ErrorEntry(video: string, error: string)

  /** `set({entry['video_id']: entry for entry in error_videos}.keys())`. */
  function FailedVideos(entries: seq<ErrorEntry>): (s: set<string>)
    ensures forall v :: v in s <==> exists k :: 0 <= k < |entries| && entries[k].video == v
  {
    set k | 0 <= k < |entries| :: entries[k].video
  }

  // ----- the user message -----

  /** One entry of a chat message's `content` list. */
  datatype Part = ImageUrl(url: string, detail: string) | Text(text: string)

  /** At most this many frames are attached. */
  const MaxImages: nat := 10
  const DataUrlPrefix: string := "data:image/png;base64,"
  const LowDetail: string := "low"

  /** `content`: the first ten frames as `data:` URLs at low detail, then the prompt. */
  function UserContent(frames: seq<string>, prompt: string): (c: seq<Part>)
    ensures |c| == Min(MaxImages, |frames|) + 1
    ensures c[|c| - 1] == Text(prompt)
    ensures forall k :: 0 <= k < |c| - 1 ==> c[k].ImageUrl? && c[k].detail == LowDetail
  {
    var n := Min(MaxImages, |frames|);
    seq(n, k requires 0 <= k < n => ImageUrl(DataUrlPrefix + frames[k], LowDetail)) + [Text(prompt)]
  }

  /** The base64 payloads of the image entries, in order. */
  function AttachedFrames(c: seq<Part>): seq<string>
    decreases |c|
  {
    if |c| == 0 then []
    else
      var rest := AttachedFrames(c[1..]);
      match c[0]
      case ImageUrl(url, _) =>
        if |url| >= |DataUrlPrefix| && url[..|DataUrlPrefix|] == DataUrlPrefix
        then [url[|DataUrlPrefix|..]] + rest else rest
      case Text(_) => rest
  }

  /** The number of text entries. */
  function TextCount(c: seq<Part>): nat
    decreases |c|
  {
    if |c| == 0 then 0 else (if c[0].Text? then 1 else 0) + TextCount(c[1..])
  }

  /** The frames sent are exactly the first ten, in order, and the prompt is the only text. */
  lemma UserContentCarries(frames: seq<string>, prompt: string)
    ensures AttachedFrames(UserContent(frames, prompt)) == frames[..Min(MaxImages, |frames|)]
    ensures TextCount(UserContent(frames, prompt)) == 1
  {
    var n := Min(MaxImages, |frames|);
    ContentSuffix(frames, prompt, 0);
  }

  lemma {:induction false} ContentSuffix(frames: seq<string>, prompt: string, k: nat)
    requires k <= Min(MaxImages, |frames|)
    ensures var c := UserContent(frames, prompt);
      && AttachedFrames(c[k..]) == frames[k..Min(MaxImages, |frames|)]
      && TextCount(c[k..]) == 1
    decreases Min(MaxImages, |frames|) - k
  {
    var c := UserContent(frames, prompt);
    var n := Min(MaxImages, |frames|);
    if k == n {
      assert c[k..] == [Text(prompt)];
      assert AttachedFrames(c[k..]) == AttachedFrames(c[k + 1..]);
    } else {
      ContentSuffix(frames, prompt, k + 1);
      assert c[k..][1..] == c[k + 1..];
      var url := DataUrlPrefix + frames[k];
      assert c[k] == ImageUrl(url, LowDetail);
      assert url[..|DataUrlPrefix|] == DataUrlPrefix && url[|DataUrlPrefix|..] == frames[k];
      assert frames[k..n] == [frames[k]] + frames[k + 1..n];
    }
  }

  // ----- the JSON span of the reply -----

  /** `s.find(c)`: the first position of `c`, or -1. */
  function Find(s: string, c: char): (r: int)
    ensures -1 <= r < |s|
    ensures r == -1 <==> c !in s
    ensures r >= 0 ==> s[r] == c && c !in s[..r]
    decreases |s|
  {
    if |s| == 0 then -1
    else if s[0] == c then 0
    else
      var r := Find(s[1..], c);
      assert s[1..][..if r < 0 then 0 else r] == s[1..1 + (if r < 0 then 0 else r)];
      if r == -1 then -1 else r + 1
  }

  /** `s.rfind(c)`: the last position of `c`, or -1. */
  function RFind(s: string, c: char): (r: int)
    ensures -1 <= r < |s|
    ensures r == -1 <==> c !in s
    ensures r >= 0 ==> s[r] == c && c !in s[r + 1..]
    decreases |s|
  {
    if |s| == 0 then -1
    else
      var r := RFind(s[1..], c);
      if r >= 0 then
        assert s[r + 2..] == s[1..][r + 1..];
        r + 1
      else if s[0] == c then
        assert s[1..] == s[0 + 1..];
        0
      else
        assert s == [s[0]] + s[1..];
        -1
  }

  /**
   * `content_str[start_idx:end_idx + 1]` with the first `{` and the last `}`; `None` is the
   * "No JSON content found" branch. A `}` before the first `{` gives the empty slice.
   */
  function BraceSpan(s: string): (r: Option<string>)
    ensures r.None? <==> '{' !in s || '}' !in s
    ensures r.Some? && |r.value| > 0 ==> r.value[0] == '{' && r.value[|r.value| - 1] == '}'
  {
    var start := Find(s, '{');
    var end := RFind(s, '}');
    if start == -1 || end == -1 then None
    else if start <= end then Some(s[start..end + 1])
    else Some("")
  }

  /**
   * An object wrapped in chatter comes back out whole, whatever it contains, as long as
   * the text before it has no `{` and the text after it no `}`.
   */
  lemma BraceSpanWrapped(before: string, body: string, after: string)
    requires '{' !in before && '}' !in after
    requires |body| >= 2 && body[0] == '{' && body[|body| - 1] == '}'
    ensures BraceSpan(before + body + after) == Some(body)
  {
    var s := before + body + after;
    var start := Find(s, '{');
    var end := RFind(s, '}');
    assert s[|before|] == '{';
    assert s[|before| + |body| - 1] == '}';
    assert s[start..end + 1] == body;
  }

  /** Every `}` of `s` stands before every `{` of `s`. */
  predicate ClosesBeforeOpens(s: string) {
    forall i, j :: 0 <= i < |s| && 0 <= j < |s| && s[i] == '{' && s[j] == '}' ==> j < i
  }

  /**
   * With both braces present, the span is the empty string, not an error, exactly when
   * every closing brace precedes every opening one.
   */
  lemma BraceSpanReversed(s: string)
    requires '{' in s && '}' in s
    ensures BraceSpan(s) == Some("") <==> ClosesBeforeOpens(s)
  {
    var start := Find(s, '{');
    var end := RFind(s, '}');
    if ClosesBeforeOpens(s) {
      assert s[start] == '{' && s[end] == '}';
      assert end < start;
    } else {
      var i, j :| 0 <= i < |s| && 0 <= j < |s| && s[i] == '{' && s[j] == '}' && i <= j;
      assert start <= i && j <= end;
      assert |BraceSpan(s).value| > 0;
    }
  }

  // ----- oid allocation -----

  /** One `video_id: oid` pair of `videoid_oid.json`, in file order. */
  datatype Entry = Entry(video: string, oid: int)

  type OidTable = seq<Entry>

  /** The table is a JSON object: no video appears twice. */
  predicate KeysDistinct(t: OidTable) {
    forall i, j :: 0 <= i < j < |t| ==> t[i].video != t[j].video
  }

  /** No two videos share an oid. */
  predicate OidsDistinct(t: OidTable) {
    forall i, j :: 0 <= i < j < |t| ==> t[i].oid != t[j].oid
  }

  /** `videoid_oid.get(video)`. */
  function Get(t: OidTable, video: string): (r: Option<int>)
    ensures r.None? <==> forall k :: 0 <= k < |t| ==> t[k].video != video
    ensures r.Some? ==> exists k :: 0 <= k < |t| && t[k] == Entry(video, r.value)
    decreases |t|
  {
    if |t| == 0 then None
    else if t[0].video == video then Some(t[0].oid)
    else
      var r := Get(t[1..], video);
      assert forall k :: 1 <= k < |t| ==> t[k] == t[1..][k - 1];
      r
  }

  /** `max(videoid_oid.values(), default=-1)`. */
  function MaxOid(t: OidTable): (m: int)
    ensures forall k :: 0 <= k < |t| ==> t[k].oid <= m
    ensures |t| == 0 ==> m == -1
    ensures |t| > 0 ==> exists k :: 0 <= k < |t| && t[k].oid == m
    decreases |t|
  {
    if |t| == 0 then -1
    else
      var m := MaxOid(t[..|t| - 1]);
      assert forall k :: 0 <= k < |t| - 1 ==> t[k] == t[..|t| - 1][k];
      if |t| == 1 || t[|t| - 1].oid > m then t[|t| - 1].oid else m
  }

  /** The oid given to a video and the table afterwards. */
  datatype Allocation = Allocation(oid: int, table: OidTable)

  /** A known video keeps its oid; a new one gets one more than the largest, 0 in an empty table. */
  function AllocateOid(t: OidTable, video: string): (a: Allocation)
    ensures Get(t, video).Some? ==> a == Allocation(Get(t, video).value, t)
    ensures Get(t, video).None? ==> forall k :: 0 <= k < |t| ==> t[k].oid < a.oid
    ensures Get(t, video).None? && |t| > 0 ==> exists k :: 0 <= k < |t| && a.oid == t[k].oid + 1
    ensures |t| == 0 ==> a.oid == 0
  {
    var known := Get(t, video);
    if known.Some? then Allocation(known.value, t)
    else
      var next := MaxOid(t) + 1;
      Allocation(next, t + [Entry(video, next)])
  }

  /**
   * After allocation the video maps to the oid returned, every other video keeps its
   * entry, and a table with distinct keys and distinct oids keeps both.
   */
  lemma AllocationPreservesTable(t: OidTable, video: string)
    requires KeysDistinct(t)
    ensures var a := AllocateOid(t, video);
      && Get(a.table, video) == Some(a.oid)
      && (forall w :: w != video ==> Get(a.table, w) == Get(t, w))
      && KeysDistinct(a.table)
      && (OidsDistinct(t) ==> OidsDistinct(a.table))
  {
    var a := AllocateOid(t, video);
    if Get(t, video).None? {
      GetAppend(t, Entry(video, a.oid), video);
      forall w | w != video
        ensures Get(a.table, w) == Get(t, w)
      {
        GetAppend(t, Entry(video, a.oid), w);
      }
    } else {
      var k :| 0 <= k < |t| && t[k] == Entry(video, a.oid);
      GetDistinct(t, k);
    }
  }

  lemma {:induction false} GetAppend(t: OidTable, e: Entry, w: string)
    ensures Get(t + [e], w) == if Get(t, w).Some? then Get(t, w)
                               else if e.video == w then Some(e.oid) else None
    decreases |t|
  {
    if |t| > 0 {
      assert (t + [e])[1..] == t[1..] + [e];
      GetAppend(t[1..], e, w);
    }
  }

  lemma {:induction false} GetDistinct(t: OidTable, k: nat)
    requires KeysDistinct(t) && k < |t|
    ensures Get(t, t[k].video) == Some(t[k].oid)
    decreases |t|
  {
    if k > 0 {
      assert KeysDistinct(t[1..]);
      GetDistinct(t[1..], k - 1);
    }
  }

  // ----- question numbering and option shuffling -----

  /** One generated question: its id, if it has one yet, its options and the correct index. */
  datatype Question = Question(id: Option<int>, options: seq<string>, correct: int)

  /** `question.get("id", 0)`. */
  function IdOrZero(q: Question): int {
    match q.id
    case Some(i) => i
    case None => 0
  }

  /** The ids of every question of every saved result; a result without "questions" has none. */
  function AllIds(results: seq<Option<seq<Question>>>): (ids: seq<int>)
    decreases |results|
  {
    if |results| == 0 then []
    else
      var qs := match results[0] case Some(qs) => qs case None => [];
      Map(IdOrZero, qs) + AllIds(results[1..])
  }

  /** `max(..., default=0)` over the ids. */
  function MaxOr(xs: seq<int>, default: int): (m: int)
    ensures forall k :: 0 <= k < |xs| ==> xs[k] <= m
    ensures |xs| == 0 ==> m == default
    ensures |xs| > 0 ==> m in xs
    decreases |xs|
  {
    if |xs| == 0 then default
    else
      var m := MaxOr(xs[1..], default);
      if |xs| == 1 || xs[0] > m then xs[0] else m
  }

  /** `last_question_id` when the run starts. */
  function LastQuestionId(results: seq<Option<seq<Question>>>): (last: int)
    ensures forall k :: 0 <= k < |AllIds(results)| ==> AllIds(results)[k] <= last
    ensures |AllIds(results)| == 0 ==> last == 0
    ensures |AllIds(results)| > 0 ==> last in AllIds(results)
  {
    MaxOr(AllIds(results), 0)
  }

  /** `options.index(x)`: the first position holding `x`. */
  function IndexOf(xs: seq<string>, x: string): (p: nat)
    requires x in xs
    ensures p < |xs| && xs[p] == x && x !in xs[..p]
    decreases |xs|
  {
    if xs[0] == x then 0
    else
      var p := IndexOf(xs[1..], x);
      assert xs[1..][..p] == xs[1..p + 1];
      p + 1
  }

  /**
   * Lines 168-175 for one question, with `shuffled` the order `random.shuffle` produced.
   * `options[correct_answer_idx]` accepts negative indices and raises `IndexError` outside
   * `[-len, len)`.
   */
  function Reshuffle(q: Question, shuffled: seq<string>): (r: Result<Question>)
    requires multiset(shuffled) == multiset(q.options)
    ensures r.Err? <==> !PyIndexable(|q.options|, q.correct)
    ensures r.Ok? ==> r.value.id == q.id && r.value.options == shuffled
    ensures r.Ok? ==> 0 <= r.value.correct < |shuffled|
    ensures r.Ok? ==> shuffled[r.value.correct] == q.options[PyOffset(|q.options|, q.correct)]
  {
    if !PyIndexable(|q.options|, q.correct) then Err(IndexOutOfRange)
    else
      var answer := q.options[PyOffset(|q.options|, q.correct)];
      assert answer in multiset(shuffled);
      Ok(Question(q.id, shuffled, IndexOf(shuffled, answer)))
  }

  /** With repeated option strings the index lands on the first copy of the correct text. */
  lemma ReshuffleFirstCopy(q: Question, shuffled: seq<string>)
    requires multiset(shuffled) == multiset(q.options)
    requires Reshuffle(q, shuffled).Ok?
    ensures var c := Reshuffle(q, shuffled).value.correct;
      forall k :: 0 <= k < c ==> shuffled[k] != shuffled[c]
  {
    var c := Reshuffle(q, shuffled).value.correct;
    forall k | 0 <= k < c
      ensures shuffled[k] != shuffled[c]
    {
      assert shuffled[k] == shuffled[..c][k];
    }
  }

  /** The counter and the questions after the loop; `failure` is set if a question raised. */
  datatype Pass = Pass(last: int, questions: seq<Question>, failure: Option<Error>)

  /** Each question's options may be shuffled into the paired order. */
  predicate ShufflesFit(qs: seq<Question>, shuffles: seq<seq<string>>) {
    |shuffles| == |qs| && forall k :: 0 <= k < |qs| ==> multiset(shuffles[k]) == multiset(qs[k].options)
  }

  /**
   * `for question_item in parsed_content["questions"]`: bump the counter, stamp the id,
   * reshuffle. A question that raises stops the loop; the ids already handed out stay used.
   */
  function NumberQuestions(last: int, qs: seq<Question>, shuffles: seq<seq<string>>): (p: Pass)
    requires ShufflesFit(qs, shuffles)
    ensures p.failure.None? ==> p.last == last + |qs| && |p.questions| == |qs|
    ensures p.failure.Some? ==> last < p.last <= last + |qs|
    decreases |qs|
  {
    if |qs| == 0 then Pass(last, [], None)
    else
      var id := last + 1;
      var q := qs[0].(id := Some(id));
      match Reshuffle(q, shuffles[0])
      case Err(e) => Pass(id, [], Some(e))
      case Ok(done) =>
        ShufflesFitTail(qs, shuffles);
        var rest := NumberQuestions(id, qs[1..], shuffles[1..]);
        Pass(rest.last, [done] + rest.questions, rest.failure)
  }

  /**
   * The pass stopped at question `j`: the `j` questions before it were numbered and can be
   * reshuffled, question `j` cannot, and the counter holds the id `j` was stamped with.
   */
  predicate StoppedAt(last: int, qs: seq<Question>, p: Pass, j: nat) {
    && j < |qs|
    && p.last == last + j + 1
    && |p.questions| == j
    && p.failure == Some(IndexOutOfRange)
    && !PyIndexable(|qs[j].options|, qs[j].correct)
    && forall k :: 0 <= k < j ==> PyIndexable(|qs[k].options|, qs[k].correct)
  }

  /** A failing pass stops at the first question whose correct index is out of range. */
  lemma {:induction false} NumberQuestionsStopsAtFailure(last: int, qs: seq<Question>, shuffles: seq<seq<string>>)
    requires ShufflesFit(qs, shuffles)
    requires NumberQuestions(last, qs, shuffles).failure.Some?
    ensures exists j :: StoppedAt(last, qs, NumberQuestions(last, qs, shuffles), j)
    decreases |qs|
  {
    var p := NumberQuestions(last, qs, shuffles);
    var q := qs[0].(id := Some(last + 1));
    if !PyIndexable(|qs[0].options|, qs[0].correct) {
      assert Reshuffle(q, shuffles[0]).Err?;
      assert StoppedAt(last, qs, p, 0);
    } else {
      assert Reshuffle(q, shuffles[0]).Ok?;
      ShufflesFitTail(qs, shuffles);
      var rest := NumberQuestions(last + 1, qs[1..], shuffles[1..]);
      assert p.last == rest.last && p.failure == rest.failure && |p.questions| == 1 + |rest.questions|;
      NumberQuestionsStopsAtFailure(last + 1, qs[1..], shuffles[1..]);
      var j: nat :| StoppedAt(last + 1, qs[1..], rest, j);
      assert forall k :: 0 <= k < j ==> qs[1..][k] == qs[k + 1];
      assert qs[1..][j] == qs[j + 1];
      assert StoppedAt(last, qs, p, j + 1);
    }
  }

  /** The tail of a fitting pairing still fits. */
  lemma ShufflesFitTail(qs: seq<Question>, shuffles: seq<seq<string>>)
    requires ShufflesFit(qs, shuffles) && |qs| > 0
    ensures ShufflesFit(qs[1..], shuffles[1..])
  {
    forall k | 0 <= k < |qs| - 1
      ensures multiset(shuffles[1..][k]) == multiset(qs[1..][k].options)
    {
      assert shuffles[1..][k] == shuffles[k + 1] && qs[1..][k] == qs[k + 1];
    }
  }

  /**
   * `out` is question `q` after the loop body: stamped with `id`, its options in the
   * `shuffle` order, and its index pointing at the text that was correct before.
   */
  predicate Renumbered(q: Question, shuffle: seq<string>, id: int, out: Question) {
    && PyIndexable(|q.options|, q.correct)
    && out.id == Some(id)
    && out.options == shuffle
    && 0 <= out.correct < |shuffle|
    && shuffle[out.correct] == q.options[PyOffset(|q.options|, q.correct)]
  }

  /**
   * A pass that completes numbers the questions `last + 1 .. last + n` in order, keeps each
   * question's correct answer text and shuffles only within each option list.
   */
  lemma {:induction false} NumberQuestionsConsecutive(last: int, qs: seq<Question>, shuffles: seq<seq<string>>)
    requires ShufflesFit(qs, shuffles)
    requires NumberQuestions(last, qs, shuffles).failure.None?
    ensures var p := NumberQuestions(last, qs, shuffles);
      forall k :: 0 <= k < |qs| ==> Renumbered(qs[k], shuffles[k], last + k + 1, p.questions[k])
    decreases |qs|
  {
    if |qs| > 0 {
      var id := last + 1;
      var p := NumberQuestions(last, qs, shuffles);
      var done := Reshuffle(qs[0].(id := Some(id)), shuffles[0]).value;
      ShufflesFitTail(qs, shuffles);
      var rest := NumberQuestions(id, qs[1..], shuffles[1..]);
      NumberQuestionsConsecutive(id, qs[1..], shuffles[1..]);
      assert p.questions == [done] + rest.questions;
      assert Renumbered(qs[0], shuffles[0], id, done);
      forall k | 1 <= k < |qs|
        ensures Renumbered(qs[k], shuffles[k], last + k + 1, p.questions[k])
      {
        assert p.questions[k] == rest.questions[k - 1];
        assert qs[k] == qs[1..][k - 1] && shuffles[k] == shuffles[1..][k - 1];
        assert Renumbered(qs[1..][k - 1], shuffles[1..][k - 1], id + (k - 1) + 1, rest.questions[k - 1]);
      }
    }
  }

  /** Ids handed out after a run starts from the saved results never clash with a saved id. */
  lemma NewIdsFresh(results: seq<Option<seq<Question>>>, qs: seq<Question>, shuffles: seq<seq<string>>)
    requires ShufflesFit(qs, shuffles)
    requires NumberQuestions(LastQuestionId(results), qs, shuffles).failure.None?
    ensures var p := NumberQuestions(LastQuestionId(results), qs, shuffles);
      forall k, i :: 0 <= k < |p.questions| && 0 <= i < |AllIds(results)| ==>
        p.questions[k].id != Some(AllIds(results)[i])
  {
    NumberQuestionsConsecutive(LastQuestionId(results), qs, shuffles);
  }
}
