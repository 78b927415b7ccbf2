/**
 * stats_from_messages: who posted most, which messages were liked most, and
 * how the messages spread over the hours of the day (UTC).
 *
 * The poster counter is a Python `Counter`: a dictionary that remembers the
 * order in which its keys were first inserted. Its keys are the posters'
 * names (or sender ids), compared as Python compares dictionary keys.
 */
module Stats {
  import opened Wrappers
  import opened Seqs
  import opened Text
  import opened Json
  import opened Sorting

  /** How many posters and messages the summary lists. */
  const TopCount: nat := 10

  /**
   * A hashable value as a dictionary sees it: `None`, a number (`True` and
   * `False` are the numbers 1 and 0) or a string.
   */
  datatype Key = KNone | KNum(n: int) | KStr(s: string)

  /** The dictionary key of `j`, or None when `j` is a list or an object (unhashable). */
  function HashKey(j: Json): (k: Option<Key>)
    ensures k.None? <==> j.JArr? || j.JObj?
  {
    match j
    case JNull => Some(KNone)
    case JBool(b) => Some(KNum(if b then 1 else 0))
    case JInt(n) => Some(KNum(n))
    case JStr(s) => Some(KStr(s))
    case JArr(_) => None
    case JObj(_) => None
  }

  /** One entry of a Counter: the key as it was first inserted, and its count. */
  datatype Tally = Tally(key: Json, count: int)

  function CountKey(t: Tally): int { t.count }

  /** `counter[k] += 1`: bump the entry with the same key, or append a new one. */
  function Bump(c: seq<Tally>, k: Json): seq<Tally> {
    if c == [] then [Tally(k, 1)]
    else if HashKey(c[0].key) == HashKey(k) then [Tally(c[0].key, c[0].count + 1)] + c[1..]
    else [c[0]] + Bump(c[1..], k)
  }

  /** `counter[k]`: the count stored under key `k`, 0 when absent. */
  function CountOf(c: seq<Tally>, k: Key): int {
    if c == [] then 0
    else if HashKey(c[0].key) == Some(k) then c[0].count
    else CountOf(c[1..], k)
  }

  /** The sum of the counts. */
  function Total(c: seq<Tally>): int {
    if c == [] then 0 else c[0].count + Total(c[1..])
  }

  /** The dictionary keys of the entries, in order. */
  function Keys(c: seq<Tally>): (r: seq<Option<Key>>)
    ensures |r| == |c| && forall i :: 0 <= i < |c| ==> r[i] == HashKey(c[i].key)
  {
    if c == [] then [] else [HashKey(c[0].key)] + Keys(c[1..])
  }

  predicate Distinct<X(==)>(s: seq<X>) {
    forall i, j :: 0 <= i < j < |s| ==> s[i] != s[j]
  }

  /** Every key is hashable, every count positive, and no key is stored twice. */
  predicate ValidCounter(c: seq<Tally>) {
    && None !in Keys(c)
    && (forall i :: 0 <= i < |c| ==> c[i].count >= 1)
    && Distinct(Keys(c))
  }

  // ---------------------------------------------------------------------
  // What one message contributes
  // ---------------------------------------------------------------------

  /** `m.get("name") or m.get("sender_id")`. */
  function PosterOf(m: Object): Json {
    Or(Get(m, "name"), Get(m, "sender_id"))
  }

  /**
   * `len(m.get("favorited_by", []))`: the length of a list, string or
   * object, 0 when the key is missing, and None (a TypeError) for null, a
   * number or a boolean.
   */
  function LikeCount(m: Object): Option<nat> {
    if "favorited_by" !in m then Some(0)
    else match m["favorited_by"]
      case JArr(items) => Some(|items|)
      case JStr(s) => Some(|s|)
      case JObj(fields) => Some(|fields|)
      case _ => None
  }

  /** Python's `int(j)`, or None when it raises. */
  function ToInt(j: Json): Option<int> {
    match j
    case JBool(b) => Some(if b then 1 else 0)
    case JInt(n) => Some(n)
    case JStr(s) => ParseInt(s)
    case _ => None
  }

  /**
   * `(int(m.get("created_at") or 0) // 3600) % 24`, or None when `int`
   * raises (the source skips that message in the histogram). Python's `//`
   * and `%` round toward minus infinity, which for the positive divisors
   * here is what Dafny's `/` and `%` do.
   */
  function HourOf(m: Object): (h: Option<int>)
    ensures h.Some? ==> 0 <= h.value < 24
  {
    match ToInt(Or(Get(m, "created_at"), JInt(0)))
    case None => None
    case Some(ts) => Some((ts / 3600) % 24)
  }

  /** A message the source cannot process: its poster is unhashable or its likes have no length. */
  predicate Rejects(m: Object) {
    HashKey(PosterOf(m)).None? || LikeCount(m).None?
  }

  /** An entry of `likes_by_message`. */
  datatype Liked = Liked(likes: int, message: Object)

  function LikesKey(l: Liked): int { l.likes }

  /** The three accumulators of the loop. */
  datatype Acc = Acc(posters: seq<Tally>, liked: seq<Liked>, hist: map<int, int>)

  /** One iteration of the loop; None when it raises. */
  function Step(acc: Acc, m: Object): Option<Acc> {
    var name := PosterOf(m);
    if HashKey(name).None? then None
    else match LikeCount(m)
      case None => None
      case Some(likes) =>
        Some(Acc(Bump(acc.posters, name), acc.liked + [Liked(likes, m)], AddHour(acc.hist, HourOf(m))))
  }

  /** The accumulators after the loop has run over `ms`, or None when an iteration raised. */
  function Fold(ms: seq<Object>): Option<Acc>
    decreases |ms|
  {
    if ms == [] then Some(Acc([], [], map[]))
    else match Fold(ms[..|ms| - 1])
      case None => None
      case Some(acc) => Step(acc, ms[|ms| - 1])
  }

  /** The returned dictionary. */
  datatype Summary = Summary(topPosters: seq<Tally>, mostLiked: seq<Liked>, hourHist: seq<(int, int)>)

  /** `sorted(hour_hist.items())` for a histogram whose keys are hours of the day. */
  function HourRows(hist: map<int, int>, from: nat): seq<(int, int)>
    requires from <= 24
    decreases 24 - from
  {
    if from == 24 then []
    else (if from in hist then [(from, hist[from])] else []) + HourRows(hist, from + 1)
  }

  /** The summary stats_from_messages returns, or None when it raises. */
  function StatsOf(ms: seq<Object>): Option<Summary> {
    match Fold(ms)
    case None => None
    case Some(acc) =>
      Some(Summary(Take(SortDesc(acc.posters, CountKey), TopCount),
                   Take(SortDesc(acc.liked, LikesKey), TopCount),
                   HourRows(acc.hist, 0)))
  }

  /** stats_from_messages. */
  method StatsFromMessages(messages: seq<Object>) returns (r: Option<Summary>)
    ensures r == StatsOf(messages)
  {
    var countByUser: seq<Tally> := [];
    var likesByMessage: seq<Liked> := [];
    var hourHist: map<int, int> := map[];
    for i := 0 to |messages|
      invariant Fold(messages[..i]) == Some(Acc(countByUser, likesByMessage, hourHist))
    {
      var m := messages[i];
      assert messages[..i + 1][..i] == messages[..i];
      var name := PosterOf(m);
      if HashKey(name).None? {
        FoldStaysFailed(messages, i + 1);
        return None;
      }
      countByUser := Bump(countByUser, name);
      var likes := LikeCount(m);
      if likes.None? {
        FoldStaysFailed(messages, i + 1);
        return None;
      }
      likesByMessage := likesByMessage + [Liked(likes.value, m)];
      var hour := HourOf(m);
      if hour.Some? {
        var h := hour.value;
        hourHist := hourHist[h := (if h in hourHist then hourHist[h] else 0) + 1];
      }
    }
    assert messages[..|messages|] == messages;
    r := Some(Summary(Take(SortDesc(countByUser, CountKey), TopCount),
                      Take(SortDesc(likesByMessage, LikesKey), TopCount),
                      HourRows(hourHist, 0)));
  }

  /** Once an iteration has raised, the whole call raises. */
  lemma {:induction false} FoldStaysFailed(ms: seq<Object>, i: nat)
    requires i <= |ms| && Fold(ms[..i]).None?
    ensures Fold(ms).None?
    decreases |ms| - i
  {
    if i < |ms| {
      assert ms[..i + 1][..i] == ms[..i];
      FoldStaysFailed(ms, i + 1);
    } else {
      assert ms[..i] == ms;
    }
  }

  // ---------------------------------------------------------------------
  // Counting what the messages say
  // ---------------------------------------------------------------------

  /** How many of `ms` were posted by the poster with key `k`. */
  function PostsBy(ms: seq<Object>, k: Key): nat {
    if ms == [] then 0
    else PostsBy(ms[..|ms| - 1], k) + (if HashKey(PosterOf(ms[|ms| - 1])) == Some(k) then 1 else 0)
  }

  /** How many of `ms` fall in hour `h`. */
  function PostsAt(ms: seq<Object>, h: int): nat {
    if ms == [] then 0
    else PostsAt(ms[..|ms| - 1], h) + (if HourOf(ms[|ms| - 1]) == Some(h) then 1 else 0)
  }

  /** Bumping keeps the keys in first-insertion order and appends a key seen for the first time. */
  lemma {:induction false} BumpKeys(c: seq<Tally>, k: Json)
    ensures Keys(Bump(c, k)) == if HashKey(k) in Keys(c) then Keys(c) else Keys(c) + [HashKey(k)]
  {
    if c != [] {
      assert Keys(c) == [HashKey(c[0].key)] + Keys(c[1..]);
      if HashKey(c[0].key) != HashKey(k) {
        BumpKeys(c[1..], k);
        assert Keys(Bump(c, k)) == [HashKey(c[0].key)] + Keys(Bump(c[1..], k));
      } else {
        assert Keys(Bump(c, k)) == [HashKey(c[0].key)] + Keys(c[1..]);
      }
    }
  }

  /** Bumping adds one to exactly the bumped key, and one to the total. */
  lemma {:induction false} BumpCounts(c: seq<Tally>, k: Json, kk: Key)
    ensures CountOf(Bump(c, k), kk) == CountOf(c, kk) + (if HashKey(k) == Some(kk) then 1 else 0)
    ensures Total(Bump(c, k)) == Total(c) + 1
  {
    if c != [] && HashKey(c[0].key) != HashKey(k) {
      BumpCounts(c[1..], k, kk);
    }
  }

  /** Bumping a hashable key keeps the counter valid. */
  lemma BumpValid(c: seq<Tally>, k: Json)
    requires ValidCounter(c) && HashKey(k).Some?
    ensures ValidCounter(Bump(c, k))
  {
    BumpKeys(c, k);
    BumpPositive(c, k);
  }

  lemma {:induction false} BumpPositive(c: seq<Tally>, k: Json)
    requires forall i :: 0 <= i < |c| ==> c[i].count >= 1
    ensures forall i :: 0 <= i < |Bump(c, k)| ==> Bump(c, k)[i].count >= 1
  {
    if c != [] && HashKey(c[0].key) != HashKey(k) {
      BumpPositive(c[1..], k);
      var b := Bump(c[1..], k);
      assert forall i :: 1 <= i < |[c[0]] + b| ==> ([c[0]] + b)[i] == b[i - 1];
    }
  }

  /** What one successful iteration does to the accumulators. */
  lemma StepParts(acc: Acc, m: Object)
    requires Step(acc, m).Some?
    ensures !Rejects(m)
    ensures Step(acc, m).value.posters == Bump(acc.posters, PosterOf(m))
    ensures Step(acc, m).value.liked == acc.liked + [Liked(LikeCount(m).value, m)]
    ensures Step(acc, m).value.hist == AddHour(acc.hist, HourOf(m))
  {
  }

  /** `hour_hist[hour] += 1` when the hour is known; the histogram unchanged otherwise. */
  function AddHour(hist: map<int, int>, hour: Option<int>): map<int, int> {
    match hour
    case None => hist
    case Some(h) => hist[h := (if h in hist then hist[h] else 0) + 1]
  }

  /** A successful fold is a successful fold of all but the last message, then one step. */
  lemma FoldLast(ms: seq<Object>)
    requires ms != [] && Fold(ms).Some?
    ensures Fold(ms[..|ms| - 1]).Some?
    ensures Step(Fold(ms[..|ms| - 1]).value, ms[|ms| - 1]) == Fold(ms)
  {
  }

  /** The poster counter counts each poster's messages, and its counts add up to the number of messages. */
  lemma {:induction false} FoldPosters(ms: seq<Object>)
    requires Fold(ms).Some?
    ensures ValidCounter(Fold(ms).value.posters)
    ensures forall k :: CountOf(Fold(ms).value.posters, k) == PostsBy(ms, k)
    ensures Total(Fold(ms).value.posters) == |ms|
    decreases |ms|
  {
    if ms != [] {
      var init := ms[..|ms| - 1];
      var m := ms[|ms| - 1];
      FoldLast(ms);
      FoldPosters(init);
      var acc := Fold(init).value;
      StepParts(acc, m);
      BumpValid(acc.posters, PosterOf(m));
      forall k ensures CountOf(Fold(ms).value.posters, k) == PostsBy(ms, k) {
        BumpCounts(acc.posters, PosterOf(m), k);
      }
      BumpCounts(acc.posters, PosterOf(m), KNone);
    }
  }

  /** The index of the first message by the poster with key `k`, or `|ms|` when there is none. */
  function FirstAt(ms: seq<Object>, k: Key): (r: nat)
    ensures r <= |ms|
    ensures r < |ms| ==> HashKey(PosterOf(ms[r])) == Some(k)
    ensures forall j :: 0 <= j < r ==> HashKey(PosterOf(ms[j])) != Some(k)
  {
    if ms == [] then 0
    else if HashKey(PosterOf(ms[0])) == Some(k) then 0
    else 1 + FirstAt(ms[1..], k)
  }

  /** A later message does not move a first appearance, and is itself a first appearance when the poster is new. */
  lemma FirstAtSnoc(ms: seq<Object>, k: Key)
    requires ms != []
    ensures var init := ms[..|ms| - 1];
      if FirstAt(init, k) < |init| then FirstAt(ms, k) == FirstAt(init, k)
      else FirstAt(ms, k) == (if HashKey(PosterOf(ms[|ms| - 1])) == Some(k) then |init| else |ms|)
  {
    var init := ms[..|ms| - 1];
    var a, b := FirstAt(init, k), FirstAt(ms, k);
    if a < |init| {
      assert ms[a] == init[a];
    }
  }

  /** `keys` holds the poster of every message of `ms`. */
  predicate Covers(ms: seq<Object>, keys: seq<Option<Key>>) {
    forall i :: 0 <= i < |ms| ==> HashKey(PosterOf(ms[i])) in keys
  }

  /** Every key of `keys` posted in `ms`, and the keys come in the order of their first messages. */
  predicate FirstsOrdered(ms: seq<Object>, keys: seq<Option<Key>>) {
    && (forall i :: 0 <= i < |keys| ==> keys[i].Some? && FirstAt(ms, keys[i].value) < |ms|)
    && (forall i, j :: 0 <= i < j < |keys| ==> FirstAt(ms, keys[i].value) < FirstAt(ms, keys[j].value))
  }

  /**
   * `keys` lists every poster of `ms`, each by the index of its first
   * message, in the order of those first messages.
   */
  predicate InFirstOrder(ms: seq<Object>, keys: seq<Option<Key>>) {
    Covers(ms, keys) && FirstsOrdered(ms, keys)
  }

  /** The earlier posters keep their first messages when one more message arrives. */
  lemma FirstAtKept(ms: seq<Object>, keys0: seq<Option<Key>>)
    requires ms != [] && FirstsOrdered(ms[..|ms| - 1], keys0)
    ensures forall i :: 0 <= i < |keys0| ==> FirstAt(ms, keys0[i].value) == FirstAt(ms[..|ms| - 1], keys0[i].value)
  {
    forall i | 0 <= i < |keys0| ensures FirstAt(ms, keys0[i].value) == FirstAt(ms[..|ms| - 1], keys0[i].value) {
      FirstAtSnoc(ms, keys0[i].value);
    }
  }

  /** One more message is covered once its poster is among the keys. */
  lemma CoversSnoc(ms: seq<Object>, keys0: seq<Option<Key>>, keys: seq<Option<Key>>)
    requires ms != [] && Covers(ms[..|ms| - 1], keys0)
    requires forall x :: x in keys0 ==> x in keys
    requires HashKey(PosterOf(ms[|ms| - 1])) in keys
    ensures Covers(ms, keys)
  {
    var init := ms[..|ms| - 1];
    forall i | 0 <= i < |ms| ensures HashKey(PosterOf(ms[i])) in keys {
      if i < |init| {
        assert ms[i] == init[i];
        assert HashKey(PosterOf(init[i])) in keys0;
      }
    }
  }

  /** A message by a poster seen before leaves the keys as they are. */
  lemma FirstOrderOld(ms: seq<Object>, keys0: seq<Option<Key>>)
    requires ms != [] && InFirstOrder(ms[..|ms| - 1], keys0)
    requires HashKey(PosterOf(ms[|ms| - 1])) in keys0
    ensures InFirstOrder(ms, keys0)
  {
    FirstAtKept(ms, keys0);
    CoversSnoc(ms, keys0, keys0);
  }

  /** The first message of a poster not among the keys of the earlier messages is the new one. */
  lemma NewPosterFirstAt(ms: seq<Object>, keys0: seq<Option<Key>>, k: Option<Key>)
    requires ms != [] && Covers(ms[..|ms| - 1], keys0)
    requires k == HashKey(PosterOf(ms[|ms| - 1])) && k.Some? && k !in keys0
    ensures FirstAt(ms, k.value) == |ms| - 1
  {
    var init := ms[..|ms| - 1];
    forall j | 0 <= j < |init| ensures HashKey(PosterOf(init[j])) != k {
      assert HashKey(PosterOf(init[j])) in keys0;
    }
    FirstAtSnoc(ms, k.value);
  }

  /** Appending a poster whose first message is the last keeps the keys in first-message order. */
  lemma FirstsAppend(ms: seq<Object>, keys0: seq<Option<Key>>, k: Option<Key>)
    requires ms != [] && FirstsOrdered(ms[..|ms| - 1], keys0)
    requires k.Some? && FirstAt(ms, k.value) == |ms| - 1
    ensures FirstsOrdered(ms, keys0 + [k])
  {
    var keys := keys0 + [k];
    FirstAtKept(ms, keys0);
    assert forall i :: 0 <= i < |keys0| ==> keys[i] == keys0[i];
    forall i, j | 0 <= i < j < |keys| ensures FirstAt(ms, keys[i].value) < FirstAt(ms, keys[j].value) {
      if j < |keys0| {
        assert keys[j] == keys0[j];
      }
    }
  }

  /** A message by a new poster appends that poster, whose first message it is. */
  lemma FirstOrderNew(ms: seq<Object>, keys0: seq<Option<Key>>, k: Option<Key>)
    requires ms != [] && InFirstOrder(ms[..|ms| - 1], keys0)
    requires k == HashKey(PosterOf(ms[|ms| - 1])) && k.Some? && k !in keys0
    ensures InFirstOrder(ms, keys0 + [k])
  {
    NewPosterFirstAt(ms, keys0, k);
    FirstsAppend(ms, keys0, k);
    CoversSnoc(ms, keys0, keys0 + [k]);
  }

  /**
   * The counter lists every poster once, in the order of their first
   * message: a dictionary keeps its keys in first-insertion order.
   */
  lemma {:induction false} PostersFirstSeen(ms: seq<Object>)
    requires Fold(ms).Some?
    ensures InFirstOrder(ms, Keys(Fold(ms).value.posters))
    decreases |ms|
  {
    if ms != [] {
      var init := ms[..|ms| - 1];
      var m := ms[|ms| - 1];
      FoldLast(ms);
      PostersFirstSeen(init);
      var acc := Fold(init).value;
      StepParts(acc, m);
      BumpKeys(acc.posters, PosterOf(m));
      if HashKey(PosterOf(m)) in Keys(acc.posters) {
        FirstOrderOld(ms, Keys(acc.posters));
      } else {
        FirstOrderNew(ms, Keys(acc.posters), HashKey(PosterOf(m)));
      }
    }
  }

  /** `likes_by_message` pairs every message with its like count, in input order. */
  lemma {:induction false} FoldLiked(ms: seq<Object>)
    requires Fold(ms).Some?
    ensures |Fold(ms).value.liked| == |ms|
    ensures forall i :: 0 <= i < |ms| ==> LikeCount(ms[i]).Some? && Fold(ms).value.liked[i] == Liked(LikeCount(ms[i]).value, ms[i])
    decreases |ms|
  {
    if ms != [] {
      var init := ms[..|ms| - 1];
      FoldLast(ms);
      FoldLiked(init);
      StepParts(Fold(init).value, ms[|ms| - 1]);
      forall i | 0 <= i < |init| ensures init[i] == ms[i] { }
    }
  }

  /** The histogram counts the messages of each hour, and holds only hours that occur. */
  lemma {:induction false} FoldHist(ms: seq<Object>)
    requires Fold(ms).Some?
    ensures forall h :: h in Fold(ms).value.hist ==> 0 <= h < 24 && Fold(ms).value.hist[h] == PostsAt(ms, h) >= 1
    ensures forall h :: h !in Fold(ms).value.hist ==> PostsAt(ms, h) == 0
    decreases |ms|
  {
    if ms != [] {
      var init := ms[..|ms| - 1];
      FoldLast(ms);
      FoldHist(init);
      StepParts(Fold(init).value, ms[|ms| - 1]);
    }
  }

  /** The call raises exactly when some message is one it cannot process. */
  lemma {:induction false} FoldFails(ms: seq<Object>)
    ensures Fold(ms).None? <==> exists i :: 0 <= i < |ms| && Rejects(ms[i])
    decreases |ms|
  {
    if ms != [] {
      var init := ms[..|ms| - 1];
      FoldFails(init);
      if exists i :: 0 <= i < |init| && Rejects(init[i]) {
        var i :| 0 <= i < |init| && Rejects(init[i]);
        assert ms[i] == init[i];
      }
      if exists i :: 0 <= i < |ms| && Rejects(ms[i]) {
        var i :| 0 <= i < |ms| && Rejects(ms[i]);
        if i < |init| {
          assert init[i] == ms[i];
        }
      }
    }
  }

  // ---------------------------------------------------------------------
  // Counters and permutations
  // ---------------------------------------------------------------------

  /** In a valid counter the count under an entry's key is that entry's count. */
  lemma {:induction false} CountOfAt(c: seq<Tally>, p: nat)
    requires ValidCounter(c) && p < |c|
    ensures HashKey(c[p].key).Some? && CountOf(c, HashKey(c[p].key).value) == c[p].count
  {
    assert Keys(c)[p] == HashKey(c[p].key);
    if p > 0 {
      assert Keys(c)[0] != Keys(c)[p];
      assert ValidCounter(c[1..]) by {
        assert Keys(c[1..]) == Keys(c)[1..];
      }
      assert c[1..][p - 1] == c[p];
      CountOfAt(c[1..], p - 1);
    }
  }

  /** A key with a non-zero count has an entry. */
  lemma {:induction false} CountOfPositive(c: seq<Tally>, k: Key)
    requires CountOf(c, k) != 0
    ensures Some(k) in Keys(c)
  {
    assert Keys(c) == [HashKey(c[0].key)] + Keys(c[1..]);
    if HashKey(c[0].key) != Some(k) {
      CountOfPositive(c[1..], k);
    }
  }

  /** A value at two positions occurs twice in the multiset. */
  lemma TwiceInMultiset<X>(s: seq<X>, i: nat, j: nat)
    requires i < j < |s| && s[i] == s[j]
    ensures multiset(s)[s[i]] >= 2
  {
    assert s == s[..j] + [s[j]] + s[j + 1..];
    assert s[..j][i] == s[i];
    assert s[i] in multiset(s[..j]);
  }

  /** A value that occurs twice in the multiset sits at two positions. */
  lemma {:induction false} TwoPositions<X>(s: seq<X>, x: X) returns (i: nat, j: nat)
    requires multiset(s)[x] >= 2
    ensures i < j < |s| && s[i] == x && s[j] == x
  {
    assert s == [s[0]] + s[1..];
    if s[0] == x {
      assert x in multiset(s[1..]);
      var k := FindIn(s[1..], x);
      i, j := 0, k + 1;
    } else {
      var a, b := TwoPositions(s[1..], x);
      i, j := a + 1, b + 1;
    }
  }

  /** Two positions of a permutation of `c` come from two different positions of `c`. */
  lemma PermPositions<X>(c: seq<X>, d: seq<X>, i: nat, j: nat) returns (p: nat, q: nat)
    requires multiset(d) == multiset(c) && i < j < |d|
    ensures p < |c| && q < |c| && p != q && c[p] == d[i] && c[q] == d[j]
  {
    assert d[i] in multiset(c) && d[j] in multiset(c);
    if d[i] == d[j] {
      TwiceInMultiset(d, i, j);
      p, q := TwoPositions(c, d[i]);
    } else {
      p := FindIn(c, d[i]);
      q := FindIn(c, d[j]);
    }
  }

  /** Reordering a valid counter leaves it valid. */
  lemma PermValid(c: seq<Tally>, d: seq<Tally>)
    requires ValidCounter(c) && multiset(d) == multiset(c)
    ensures ValidCounter(d)
  {
    forall i | 0 <= i < |d| ensures HashKey(d[i].key).Some? && d[i].count >= 1 {
      assert d[i] in multiset(c);
      var p := FindIn(c, d[i]);
      assert Keys(c)[p] == HashKey(c[p].key);
    }
    assert None !in Keys(d);
    forall i, j | 0 <= i < j < |d| ensures Keys(d)[i] != Keys(d)[j] {
      var p, q := PermPositions(c, d, i, j);
      assert Keys(c)[p] != Keys(c)[q];
    }
  }

  /** A prefix of a valid counter is valid. */
  lemma ValidPrefix(c: seq<Tally>, n: nat)
    requires ValidCounter(c) && n <= |c|
    ensures ValidCounter(c[..n])
  {
    assert Keys(c[..n]) == Keys(c)[..n];
    assert None !in Keys(c)[..n];
  }


  // ---------------------------------------------------------------------
  // The summary
  // ---------------------------------------------------------------------

  /** Each of the top entries of a valid counter carries the count stored under its key. */
  lemma MostCommonCounts(c: seq<Tally>)
    requires ValidCounter(c)
    ensures var top := Take(SortDesc(c, CountKey), TopCount);
      forall i :: 0 <= i < |top| ==> HashKey(top[i].key).Some? && top[i].count == CountOf(c, HashKey(top[i].key).value)
  {
    var sorted := SortDesc(c, CountKey);
    var top := Take(sorted, TopCount);
    TakeIsPrefix(sorted, TopCount);
    forall i | 0 <= i < |top| ensures HashKey(top[i].key).Some? && top[i].count == CountOf(c, HashKey(top[i].key).value) {
      assert top[i] == sorted[i] && sorted[i] in multiset(c);
      var p := FindIn(c, sorted[i]);
      CountOfAt(c, p);
    }
  }

  /** A key of a valid counter is among its top entries, or counts no more than any of them. */
  lemma MostCommonComplete(c: seq<Tally>, k: Key)
    requires ValidCounter(c) && CountOf(c, k) != 0
    ensures var top := Take(SortDesc(c, CountKey), TopCount);
      Some(k) in Keys(top) || (|top| == TopCount && forall i :: 0 <= i < |top| ==> top[i].count >= CountOf(c, k))
  {
    var sorted := SortDesc(c, CountKey);
    var top := Take(sorted, TopCount);
    TakeIsPrefix(sorted, TopCount);
    CountOfPositive(c, k);
    var p :| 0 <= p < |c| && Keys(c)[p] == Some(k);
    CountOfAt(c, p);
    assert c[p] in multiset(c);
    TopOfSorted(c, CountKey, TopCount, c[p]);
    if c[p] in top {
      var j := FindIn(top, c[p]);
      assert Keys(top)[j] == Some(k);
    }
  }

  /**
   * Among entries with equal counts, `most_common` keeps the counter's own
   * order and takes them from its front.
   */
  lemma MostCommonTies(c: seq<Tally>)
    ensures var top := Take(SortDesc(c, CountKey), TopCount);
      forall n :: WithKey(top, CountKey, n) <= WithKey(c, CountKey, n)
  {
    var sorted := SortDesc(c, CountKey);
    TakeIsPrefix(sorted, TopCount);
    forall n ensures WithKey(Take(sorted, TopCount), CountKey, n) <= WithKey(c, CountKey, n) {
      WithKeyPrefix(sorted, CountKey, n, Min(TopCount, |sorted|));
      SortStable(c, CountKey, n);
    }
  }

  /** The top entries of a valid counter, as `Counter.most_common(10)` returns them. */
  lemma MostCommon(c: seq<Tally>)
    requires ValidCounter(c)
    ensures var top := Take(SortDesc(c, CountKey), TopCount);
      && |top| <= TopCount
      && SortedDesc(top, CountKey)
      && ValidCounter(top)
      && (forall i :: 0 <= i < |top| ==> HashKey(top[i].key).Some? && top[i].count == CountOf(c, HashKey(top[i].key).value))
      && (forall k :: CountOf(c, k) != 0 ==>
            Some(k) in Keys(top) || (|top| == TopCount && forall i :: 0 <= i < |top| ==> top[i].count >= CountOf(c, k)))
      && (forall n :: WithKey(top, CountKey, n) <= WithKey(c, CountKey, n))
  {
    MostCommonTies(c);
    var sorted := SortDesc(c, CountKey);
    var n := Min(TopCount, |sorted|);
    TakeIsPrefix(sorted, TopCount);
    PermValid(c, sorted);
    ValidPrefix(sorted, n);
    MostCommonCounts(c);
    forall k | CountOf(c, k) != 0
      ensures var top := Take(SortDesc(c, CountKey), TopCount);
        Some(k) in Keys(top) || (|top| == TopCount && forall i :: 0 <= i < |top| ==> top[i].count >= CountOf(c, k))
    {
      MostCommonComplete(c, k);
    }
  }

  /**
   * `top_posters`: at most ten posters, each once, with their exact number
   * of messages, most first; a poster who is missing has no more messages
   * than any poster listed, and is only missing when the list is full.
   */
  lemma TopPosters(ms: seq<Object>)
    requires StatsOf(ms).Some?
    ensures var top := StatsOf(ms).value.topPosters;
      && |top| <= TopCount
      && SortedDesc(top, CountKey)
      && ValidCounter(top)
      && (forall i :: 0 <= i < |top| ==> HashKey(top[i].key).Some? && top[i].count == PostsBy(ms, HashKey(top[i].key).value))
      && (forall k :: PostsBy(ms, k) > 0 ==>
            Some(k) in Keys(top) || (|top| == TopCount && forall i :: 0 <= i < |top| ==> top[i].count >= PostsBy(ms, k)))
      && (forall n :: WithKey(top, CountKey, n) <= WithKey(Fold(ms).value.posters, CountKey, n))
  {
    FoldPosters(ms);
    MostCommon(Fold(ms).value.posters);
  }

  /** Two tied entries of a valid counter's top list are in the counter's order. */
  lemma TiedInOrder(c: seq<Tally>, i: nat, j: nat) returns (p: nat, q: nat)
    requires ValidCounter(c)
    requires var top := Take(SortDesc(c, CountKey), TopCount);
      i < j < |top| && top[i].count == top[j].count
    ensures var top := Take(SortDesc(c, CountKey), TopCount);
      p < q < |c| && c[p] == top[i] && c[q] == top[j]
  {
    var top := Take(SortDesc(c, CountKey), TopCount);
    MostCommonTies(c);
    var a, b := WithKeyKeepsOrder(top, CountKey, i, j);
    var n := top[i].count;
    assert WithKey(top, CountKey, n) <= WithKey(c, CountKey, n);
    p, q := WithKeyOrigin(c, CountKey, n, a, b);
  }

  /** An entry left out of a valid counter's top list comes after every listed entry with the same count. */
  lemma LeftOutAfter(c: seq<Tally>, i: nat, q: nat) returns (p: nat)
    requires ValidCounter(c)
    requires var top := Take(SortDesc(c, CountKey), TopCount);
      i < |top| && q < |c| && c[q] !in top && c[q].count == top[i].count
    ensures var top := Take(SortDesc(c, CountKey), TopCount);
      p < q && c[p] == top[i]
  {
    var top := Take(SortDesc(c, CountKey), TopCount);
    var n := top[i].count;
    MostCommonTies(c);
    WithKeyMembers(top, CountKey, n);
    var a := WithKeyHas(top, CountKey, i);
    var b := WithKeyHas(c, CountKey, q);
    assert WithKey(top, CountKey, n) <= WithKey(c, CountKey, n);
    var q';
    p, q' := WithKeyOrigin(c, CountKey, n, a, b);
    assert Keys(c)[q'] == Keys(c)[q];
  }

  /** Two tied posters of `top_posters` are listed in the order of their first messages. */
  lemma TopTieOrdered(ms: seq<Object>, i: nat, j: nat)
    requires StatsOf(ms).Some?
    requires var top := StatsOf(ms).value.topPosters;
      i < j < |top| && top[i].count == top[j].count
    ensures var top := StatsOf(ms).value.topPosters;
      && HashKey(top[i].key).Some? && HashKey(top[j].key).Some?
      && FirstAt(ms, HashKey(top[i].key).value) < FirstAt(ms, HashKey(top[j].key).value)
  {
    var c := Fold(ms).value.posters;
    var top := StatsOf(ms).value.topPosters;
    assert top == Take(SortDesc(c, CountKey), TopCount);
    FoldPosters(ms);
    PostersFirstSeen(ms);
    var p, q := TiedInOrder(c, i, j);
    assert Keys(c)[p] == HashKey(top[i].key) && Keys(c)[q] == HashKey(top[j].key);
  }

  /** A key left out of a valid counter's top list sits after every listed entry with its count. */
  lemma CounterLeftOut(c: seq<Tally>, k: Key, i: nat) returns (p: nat, q: nat)
    requires ValidCounter(c)
    requires var top := Take(SortDesc(c, CountKey), TopCount);
      i < |top| && Some(k) !in Keys(top) && CountOf(c, k) == top[i].count
    ensures var top := Take(SortDesc(c, CountKey), TopCount);
      p < q < |c| && c[p] == top[i] && Keys(c)[q] == Some(k)
  {
    var sorted := SortDesc(c, CountKey);
    var top := Take(sorted, TopCount);
    TakeIsPrefix(sorted, TopCount);
    assert top[i] == sorted[i] && sorted[i] in multiset(c);
    var y := FindIn(c, top[i]);
    assert CountOf(c, k) >= 1;
    CountOfPositive(c, k);
    q :| 0 <= q < |c| && Keys(c)[q] == Some(k);
    CountOfAt(c, q);
    p := LeftOutAfter(c, i, q);
  }

  /** A poster left out of `top_posters` first posted after every listed poster with as many messages. */
  lemma TopLeftOutLater(ms: seq<Object>, k: Key, i: nat)
    requires StatsOf(ms).Some?
    requires var top := StatsOf(ms).value.topPosters;
      i < |top| && Some(k) !in Keys(top) && PostsBy(ms, k) == top[i].count
    ensures var top := StatsOf(ms).value.topPosters;
      HashKey(top[i].key).Some? && FirstAt(ms, HashKey(top[i].key).value) < FirstAt(ms, k)
  {
    var c := Fold(ms).value.posters;
    var top := StatsOf(ms).value.topPosters;
    assert top == Take(SortDesc(c, CountKey), TopCount);
    FoldPosters(ms);
    PostersFirstSeen(ms);
    var p, q := CounterLeftOut(c, k, i);
    assert Keys(c)[p] == HashKey(top[i].key);
  }

  /**
   * How `most_common` breaks ties: among posters with equal counts, the one
   * whose first message came earlier is listed first, and a poster left out
   * first posted after every listed poster with the same count.
   */
  lemma TopPostersTies(ms: seq<Object>)
    requires StatsOf(ms).Some?
    ensures var top := StatsOf(ms).value.topPosters;
      && (forall i :: 0 <= i < |top| ==> HashKey(top[i].key).Some?)
      && (forall i, j :: 0 <= i < j < |top| && top[i].count == top[j].count ==>
            FirstAt(ms, HashKey(top[i].key).value) < FirstAt(ms, HashKey(top[j].key).value))
      && (forall k, i :: 0 <= i < |top| && Some(k) !in Keys(top) && PostsBy(ms, k) == top[i].count ==>
            FirstAt(ms, HashKey(top[i].key).value) < FirstAt(ms, k))
  {
    var top := StatsOf(ms).value.topPosters;
    TopPosters(ms);
    forall i, j | 0 <= i < j < |top| && top[i].count == top[j].count
      ensures FirstAt(ms, HashKey(top[i].key).value) < FirstAt(ms, HashKey(top[j].key).value)
    {
      TopTieOrdered(ms, i, j);
    }
    forall k, i | 0 <= i < |top| && Some(k) !in Keys(top) && PostsBy(ms, k) == top[i].count
      ensures FirstAt(ms, HashKey(top[i].key).value) < FirstAt(ms, k)
    {
      TopLeftOutLater(ms, k, i);
    }
  }

  /** The pairs `(likes, m)` of the messages, in input order. */
  function LikedTable(ms: seq<Object>): (r: seq<Liked>)
    requires forall i :: 0 <= i < |ms| ==> LikeCount(ms[i]).Some?
    ensures |r| == |ms| && forall i :: 0 <= i < |ms| ==> r[i] == Liked(LikeCount(ms[i]).value, ms[i])
  {
    if ms == [] then [] else LikedTable(ms[..|ms| - 1]) + [Liked(LikeCount(ms[|ms| - 1]).value, ms[|ms| - 1])]
  }

  /** The items of a prefix with key `k` are a prefix of the items with key `k`. */
  lemma {:induction false} WithKeyPrefix<X>(s: seq<X>, key: X -> int, k: int, m: nat)
    requires m <= |s|
    ensures WithKey(s[..m], key, k) <= WithKey(s, key, k)
  {
    if m > 0 {
      assert s[..m][0] == s[0];
      assert s[..m][1..] == s[1..][..m - 1];
      WithKeyPrefix(s[1..], key, k, m - 1);
    }
  }

  /** The first ten entries after sorting by likes, as `likes_by_message[:10]` takes them. */
  lemma TopLiked(table: seq<Liked>)
    ensures var top := Take(SortDesc(table, LikesKey), TopCount);
      && |top| == Min(TopCount, |table|)
      && SortedDesc(top, LikesKey)
      && (forall j :: 0 <= j < |top| ==> top[j] in table)
      && (forall i :: 0 <= i < |table| ==>
            table[i] in top || forall j :: 0 <= j < |top| ==> top[j].likes >= table[i].likes)
      && (forall n :: WithKey(top, LikesKey, n) <= WithKey(table, LikesKey, n))
  {
    var sorted := SortDesc(table, LikesKey);
    var n := Min(TopCount, |sorted|);
    var top := Take(sorted, TopCount);
    TakeIsPrefix(sorted, TopCount);
    assert top == sorted[..n];
    forall j | 0 <= j < |top| ensures top[j] in table {
      assert top[j] == sorted[j] && sorted[j] in multiset(table);
    }
    forall i | 0 <= i < |table|
      ensures table[i] in top || forall j :: 0 <= j < |top| ==> top[j].likes >= table[i].likes
    {
      assert table[i] in multiset(table);
      TopOfSorted(table, LikesKey, TopCount, table[i]);
    }
    forall k ensures WithKey(top, LikesKey, k) <= WithKey(table, LikesKey, k) {
      WithKeyPrefix(sorted, LikesKey, k, n);
      SortStable(table, LikesKey, k);
    }
  }

  /**
   * `most_liked`: the first ten (or all) messages in order of likes, most
   * first; a message left out has no more likes than any listed; among
   * messages with equal likes the listed ones come first in input order.
   */
  lemma MostLiked(ms: seq<Object>)
    requires StatsOf(ms).Some?
    ensures forall i :: 0 <= i < |ms| ==> LikeCount(ms[i]).Some?
    ensures var top := StatsOf(ms).value.mostLiked;
      && |top| == Min(TopCount, |ms|)
      && SortedDesc(top, LikesKey)
      && (forall j :: 0 <= j < |top| ==> top[j] in LikedTable(ms))
      && (forall i :: 0 <= i < |ms| ==>
            LikedTable(ms)[i] in top || forall j :: 0 <= j < |top| ==> top[j].likes >= LikedTable(ms)[i].likes)
      && (forall n :: WithKey(top, LikesKey, n) <= WithKey(LikedTable(ms), LikesKey, n))
  {
    FoldLiked(ms);
    assert Fold(ms).value.liked == LikedTable(ms);
    TopLiked(LikedTable(ms));
  }

  /** How many of `ms` have a readable creation time. */
  function Timed(ms: seq<Object>): nat {
    if ms == [] then 0 else Timed(ms[..|ms| - 1]) + (if HourOf(ms[|ms| - 1]).Some? then 1 else 0)
  }

  /** The sum of the counts in the rows. */
  function SumRows(rows: seq<(int, int)>): int {
    if rows == [] then 0 else rows[0].1 + SumRows(rows[1..])
  }

  /** The messages of hours `from` to 23, summed. */
  function SumPosts(ms: seq<Object>, from: nat): int
    requires from <= 24
    decreases 24 - from
  {
    if from == 24 then 0 else PostsAt(ms, from) + SumPosts(ms, from + 1)
  }

  /** Every row is an hour from `lo` to 23 of the histogram, with its count, and the hours ascend. */
  predicate RowsOf(rows: seq<(int, int)>, hist: map<int, int>, lo: int) {
    && (forall j :: 0 <= j < |rows| ==> lo <= rows[j].0 < 24 && rows[j].0 in hist && rows[j].1 == hist[rows[j].0])
    && (forall i, j :: 0 <= i < j < |rows| ==> rows[i].0 < rows[j].0)
  }

  lemma RowsCons(rows: seq<(int, int)>, hist: map<int, int>, lo: int)
    requires RowsOf(rows, hist, lo + 1) && lo in hist && lo < 24
    ensures RowsOf([(lo, hist[lo])] + rows, hist, lo)
  {
    var all := [(lo, hist[lo])] + rows;
    forall j | 1 <= j < |all| ensures all[j] == rows[j - 1] { }
  }

  lemma RowsWeaken(rows: seq<(int, int)>, hist: map<int, int>, lo: int)
    requires RowsOf(rows, hist, lo + 1)
    ensures RowsOf(rows, hist, lo)
  {
  }

  /** The rows of hours `from` to 23 hold hours of the histogram, with their counts, in ascending order. */
  lemma {:induction false} HourRowsEntries(hist: map<int, int>, from: nat)
    requires from <= 24
    ensures RowsOf(HourRows(hist, from), hist, from)
    decreases 24 - from
  {
    if from < 24 {
      HourRowsEntries(hist, from + 1);
      var rest := HourRows(hist, from + 1);
      if from in hist {
        RowsCons(rest, hist, from);
        assert HourRows(hist, from) == [(from, hist[from])] + rest;
      } else {
        RowsWeaken(rest, hist, from);
        assert HourRows(hist, from) == rest;
      }
    }
  }

  /** Every hour of the histogram from `from` to 23 has a row. */
  lemma {:induction false} HourRowsComplete(hist: map<int, int>, from: nat, h: int)
    requires from <= h < 24 && h in hist
    ensures exists j :: 0 <= j < |HourRows(hist, from)| && HourRows(hist, from)[j].0 == h
    decreases 24 - from
  {
    var rows := HourRows(hist, from);
    if h == from {
      assert rows[0].0 == h;
    } else {
      HourRowsComplete(hist, from + 1, h);
      var rest := HourRows(hist, from + 1);
      var j :| 0 <= j < |rest| && rest[j].0 == h;
      if from in hist {
        assert rows == [(from, hist[from])] + rest;
        assert rows[j + 1].0 == h;
      } else {
        assert rows == rest;
      }
    }
  }

  /** The rows of a histogram that counts `ms` sum to its messages of hours `from` to 23. */
  lemma {:induction false} SumHourRows(ms: seq<Object>, hist: map<int, int>, from: nat)
    requires from <= 24
    requires forall h :: h in hist ==> hist[h] == PostsAt(ms, h)
    requires forall h :: h !in hist ==> PostsAt(ms, h) == 0
    ensures SumRows(HourRows(hist, from)) == SumPosts(ms, from)
    decreases 24 - from
  {
    if from < 24 {
      SumHourRows(ms, hist, from + 1);
      var rest := HourRows(hist, from + 1);
      if from in hist {
        var rows := [(from, hist[from])] + rest;
        assert HourRows(hist, from) == rows;
        assert rows[1..] == rest;
      } else {
        assert HourRows(hist, from) == rest;
      }
    }
  }

  /** One more message adds one to the sum exactly when its hour is among `from` to 23. */
  lemma {:induction false} SumPostsStep(ms: seq<Object>, from: nat)
    requires ms != [] && from <= 24
    ensures SumPosts(ms, from) == SumPosts(ms[..|ms| - 1], from)
              + (if HourOf(ms[|ms| - 1]).Some? && from <= HourOf(ms[|ms| - 1]).value then 1 else 0)
    decreases 24 - from
  {
    if from < 24 {
      SumPostsStep(ms, from + 1);
    }
  }

  lemma {:induction false} SumPostsTimed(ms: seq<Object>)
    ensures SumPosts(ms, 0) == Timed(ms)
  {
    if ms == [] {
      SumPostsEmpty(ms, 0);
    } else {
      SumPostsTimed(ms[..|ms| - 1]);
      SumPostsStep(ms, 0);
    }
  }

  lemma {:induction false} SumPostsEmpty(ms: seq<Object>, from: nat)
    requires ms == [] && from <= 24
    ensures SumPosts(ms, from) == 0
    decreases 24 - from
  {
    if from < 24 {
      SumPostsEmpty(ms, from + 1);
    }
  }

  /**
   * `hour_hist`: rows in ascending hour order, hours of the day only, each
   * with the number of messages in that hour; every hour that has messages
   * has a row; the rows add up to the number of messages whose time could
   * be read.
   */
  lemma HourHist(ms: seq<Object>)
    requires StatsOf(ms).Some?
    ensures var rows := StatsOf(ms).value.hourHist;
      && (forall j :: 0 <= j < |rows| ==> 0 <= rows[j].0 < 24 && rows[j].1 == PostsAt(ms, rows[j].0) >= 1)
      && (forall i, j :: 0 <= i < j < |rows| ==> rows[i].0 < rows[j].0)
      && (forall h :: 0 <= h < 24 && PostsAt(ms, h) > 0 ==> HasRow(rows, h))
      && SumRows(rows) == Timed(ms)
  {
    var hist := Fold(ms).value.hist;
    assert StatsOf(ms).value.hourHist == HourRows(hist, 0);
    FoldHist(ms);
    HistRows(ms, hist, 0);
    SumPostsTimed(ms);
  }

  /** Each row built from a histogram that counts the messages of each hour carries that hour's count. */
  lemma HistRowsCounts(ms: seq<Object>, hist: map<int, int>, from: nat)
    requires from <= 24
    requires forall h :: h in hist ==> 0 <= h < 24 && hist[h] == PostsAt(ms, h) >= 1
    ensures var rows := HourRows(hist, from);
      forall j :: 0 <= j < |rows| ==> from <= rows[j].0 < 24 && rows[j].1 == PostsAt(ms, rows[j].0) >= 1
  {
    var rows := HourRows(hist, from);
    HourRowsEntries(hist, from);
    forall j | 0 <= j < |rows| ensures rows[j].1 == PostsAt(ms, rows[j].0) >= 1 {
      assert rows[j].0 in hist;
    }
  }

  /** Some row is for hour `h`. */
  predicate HasRow(rows: seq<(int, int)>, h: int) {
    exists j :: 0 <= j < |rows| && rows[j].0 == h
  }

  /** Every hour from `from` on with a message has a row. */
  lemma HistRowsHave(ms: seq<Object>, hist: map<int, int>, from: nat)
    requires from <= 24
    requires forall h :: h !in hist ==> PostsAt(ms, h) == 0
    ensures forall h :: from <= h < 24 && PostsAt(ms, h) > 0 ==> HasRow(HourRows(hist, from), h)
  {
    forall h | from <= h < 24 && PostsAt(ms, h) > 0 ensures HasRow(HourRows(hist, from), h) {
      assert h in hist;
      HourRowsComplete(hist, from, h);
    }
  }

  /** The rows, from hour `from` on, built from a histogram that counts the messages of each hour. */
  lemma HistRows(ms: seq<Object>, hist: map<int, int>, from: nat)
    requires from <= 24
    requires forall h :: h in hist ==> 0 <= h < 24 && hist[h] == PostsAt(ms, h) >= 1
    requires forall h :: h !in hist ==> PostsAt(ms, h) == 0
    ensures var rows := HourRows(hist, from);
      && (forall j :: 0 <= j < |rows| ==> from <= rows[j].0 < 24 && rows[j].1 == PostsAt(ms, rows[j].0) >= 1)
      && (forall i, j :: 0 <= i < j < |rows| ==> rows[i].0 < rows[j].0)
      && (forall h :: from <= h < 24 && PostsAt(ms, h) > 0 ==> HasRow(rows, h))
      && SumRows(rows) == SumPosts(ms, from)
  {
    HistRowsCounts(ms, hist, from);
    HourRowsEntries(hist, from);
    HistRowsHave(ms, hist, from);
    SumHourRows(ms, hist, from);
  }
}
