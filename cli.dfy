/**
 * The command-line glue of `main.py` that works on values: the `--limit`
 * cap of `read` and `read-dm`, the rows they display, the last-message
 * snippet of `list-dms`, and the `--member key=val,...` parser of
 * `group-add-members`. Console output and the API calls are not modelled;
 * the rows are what each line is printed from.
 */
module Cli {
  import opened Wrappers
  import opened Seqs
  import opened Text
  import opened Json

  /** The largest `--limit` that `read` and `read-dm` pass on. */
  const LimitCap := 500

  /** `if limit > 500: limit = 500`. */
  function CapLimit(limit: int): (r: int)
    ensures r <= LimitCap
    ensures limit <= LimitCap ==> r == limit
    ensures limit > LimitCap ==> r == LimitCap
  {
    if limit > LimitCap then LimitCap else limit
  }

  /** What one displayed message line is built from (time formatting is not modelled). */
  datatype Row = Row(createdAt: Json, name: Json, text: Json, attachments: Json)

  /** A row of `read`: the name falls back to the sender id, with no further default. */
  function ReadRow(msg: Object): Row {
    Row(Get(msg, "created_at"), Or(Get(msg, "name"), Get(msg, "sender_id")),
        Or(Get(msg, "text"), JStr("")), Or(Get(msg, "attachments"), JArr([])))
  }

  /** A row of `read-dm`: the name falls back to the sender id, then to "-". */
  function DmRow(msg: Object): Row {
    Row(Get(msg, "created_at"), Or(Or(Get(msg, "name"), Get(msg, "sender_id")), JStr("-")),
        Or(Get(msg, "text"), JStr("")), JArr([]))
  }

  /** The display name of `read-dm` is never empty, and it is `name` whenever that is set. */
  lemma DmRowName(msg: Object)
    ensures Truthy(DmRow(msg).name)
    ensures Truthy(Get(msg, "name")) ==> DmRow(msg).name == Get(msg, "name")
    ensures !Truthy(Get(msg, "name")) && Truthy(Get(msg, "sender_id")) ==> DmRow(msg).name == Get(msg, "sender_id")
    ensures !Truthy(Get(msg, "name")) && !Truthy(Get(msg, "sender_id")) ==> DmRow(msg).name == JStr("-")
  {
  }

  /** The rows of a command, one per message, oldest first: the fetched list read backwards. */
  function Display(messages: seq<Object>, rowOf: Object -> Row): (rows: seq<Row>)
    ensures |rows| == |messages|
    ensures forall i :: 0 <= i < |rows| ==> rows[i] == rowOf(messages[|messages| - 1 - i])
  {
    if messages == [] then [] else Display(messages[1..], rowOf) + [rowOf(messages[0])]
  }

  /** Showing a longer (older) fetch puts the older messages in front of those shown before. */
  lemma DisplayAppend(newer: seq<Object>, older: seq<Object>, rowOf: Object -> Row)
    ensures Display(newer + older, rowOf) == Display(older, rowOf) + Display(newer, rowOf)
  {
    var l := Display(newer + older, rowOf);
    var r := Display(older, rowOf) + Display(newer, rowOf);
    forall i | 0 <= i < |l| ensures l[i] == r[i] {
      if i < |older| {
        assert (newer + older)[|newer + older| - 1 - i] == older[|older| - 1 - i];
      } else {
        assert (newer + older)[|newer + older| - 1 - i] == newer[|newer| - 1 - (i - |older|)];
      }
    }
  }

  /** The longest snippet shown, and the length it is cut to before "..." is added. */
  const SnippetMax := 60
  const SnippetCut := 57

  /** `s[:57] + "..."` when `s` is longer than 60 characters. */
  function Truncate(s: string): (r: string)
    ensures |r| <= SnippetMax
    ensures |s| <= SnippetMax ==> r == s
    ensures |s| > SnippetMax ==> r == s[..SnippetCut] + "..."
  {
    if |s| > SnippetMax then s[..SnippetCut] + "..." else s
  }

  /**
   * The snippet of a chat's last message: its text, or "" when the text is
   * missing or falsy, with newlines turned into spaces, then truncated.
   * A truthy text that is not a string has no `.replace`, so it raises
   * (here `None`).
   */
  function Snippet(text: Json): (r: Option<string>)
    ensures r.Some? <==> !Truthy(text) || text.JStr?
    ensures !Truthy(text) ==> r == Some("")
    ensures r.Some? ==> |r.value| <= SnippetMax && '\n' !in r.value
    ensures text.JStr? && |text.s| <= SnippetMax ==> r == Some(Replace(text.s, '\n', ' '))
    ensures text.JStr? && |text.s| > SnippetMax ==>
      r.Some? && |r.value| == SnippetMax && r.value == Replace(text.s, '\n', ' ')[..SnippetCut] + "..."
  {
    var t := Or(text, JStr(""));
    if !t.JStr? then None
    else
      var flat := Replace(t.s, '\n', ' ');
      ReplaceRemoves(t.s, '\n', ' ');
      if |flat| > SnippetMax then
        NewlineFreePieces(flat, SnippetCut);
        Some(Truncate(flat))
      else
        Some(Truncate(flat))
  }

  lemma NewlineFreePieces(flat: string, cut: nat)
    requires '\n' !in flat && cut <= |flat|
    ensures '\n' !in flat[..cut] + "..."
  {
    NotInSlice(flat, 0, cut, '\n');
  }

  /** A part of a `--member` value that names a field: `key=value`. */
  predicate IsPair(p: string) {
    '=' in p
  }

  /** `p.split("=", 1)`: the part before the first `=`, and everything after it. */
  function SplitPair(p: string): (string, string)
    requires IsPair(p)
  {
    var i := IndexOf(p, '=');
    (p[..i], p[i + 1..])
  }

  /** The stripped key of a pair. */
  function KeyOf(p: string): string
    requires IsPair(p)
  {
    Strip(SplitPair(p).0)
  }

  /** The stripped value of a pair. */
  function ValueOf(p: string): string
    requires IsPair(p)
  {
    Strip(SplitPair(p).1)
  }

  /** The split is at the first `=`, so a value may itself contain `=`. */
  lemma SplitPairOf(key: string, value: string)
    requires '=' !in key
    ensures IsPair(key + "=" + value) && SplitPair(key + "=" + value) == (key, value)
  {
    IndexOfAfter(key, '=', value);
    var p := key + "=" + value;
    assert p == key + ['='] + value;
    assert p[..|key|] == key;
    assert p[|key| + 1..] == value;
  }

  /** The parts of one `--member` value: split on ",", stripped, empty ones dropped. */
  function Parts(m: string): seq<string> {
    StrippedParts(Split(m, ','))
  }

  /** The stripped `(key, value)` of each part holding an `=`, in order. */
  function Pairs(parts: seq<string>): seq<(string, string)> {
    if parts == [] then []
    else
      var p := parts[|parts| - 1];
      Pairs(parts[..|parts| - 1]) + (if IsPair(p) then [(KeyOf(p), ValueOf(p))] else [])
  }

  /** `entry[k] = v` for each pair in turn, so a later duplicate key overwrites an earlier one. */
  function Fill(pairs: seq<(string, string)>): map<string, string> {
    if pairs == [] then map[]
    else Fill(pairs[..|pairs| - 1])[pairs[|pairs| - 1].0 := pairs[|pairs| - 1].1]
  }

  /** The entry built from the parts of one `--member` value. */
  function EntryOf(parts: seq<string>): map<string, string> {
    Fill(Pairs(parts))
  }

  /** A key is in the entry exactly when some pair names it. */
  lemma {:induction false} FillKeys(pairs: seq<(string, string)>, k: string)
    ensures k in Fill(pairs) <==> exists i :: 0 <= i < |pairs| && pairs[i].0 == k
  {
    if pairs != [] {
      var init := pairs[..|pairs| - 1];
      FillKeys(init, k);
      forall i | 0 <= i < |init| ensures pairs[i] == init[i] { }
    }
  }

  /** The value of a key comes from the last pair naming it: a later duplicate wins. */
  lemma {:induction false} FillLast(pairs: seq<(string, string)>, k: string) returns (i: nat)
    requires k in Fill(pairs)
    ensures i < |pairs| && pairs[i] == (k, Fill(pairs)[k])
    ensures forall j :: i < j < |pairs| ==> pairs[j].0 != k
  {
    var n := |pairs| - 1;
    var init := pairs[..n];
    if pairs[n].0 == k {
      i := n;
    } else {
      assert k in Fill(init) && Fill(pairs)[k] == Fill(init)[k];
      i := FillLast(init, k);
      assert pairs[i] == init[i];
      forall j | i < j < n ensures pairs[j].0 != k {
        assert pairs[j] == init[j];
      }
    }
  }

  /** There are at most as many pairs as parts. */
  lemma {:induction false} PairsBound(parts: seq<string>)
    ensures |Pairs(parts)| <= |parts|
  {
    if parts != [] {
      PairsBound(parts[..|parts| - 1]);
    }
  }

  /** One more part adds one pair when it holds an `=`, and none otherwise. */
  lemma PairsLength(parts: seq<string>)
    requires parts != []
    ensures |Pairs(parts)| == |Pairs(parts[..|parts| - 1])| + (if IsPair(parts[|parts| - 1]) then 1 else 0)
  {
  }

  /** There are no pairs exactly when no part holds an `=`. */
  lemma {:induction false} PairsNone(parts: seq<string>)
    ensures Pairs(parts) == [] <==> forall i :: 0 <= i < |parts| ==> !IsPair(parts[i])
  {
    if parts != [] {
      var n := |parts| - 1;
      var init := parts[..n];
      PairsNone(init);
      PairsLength(parts);
      if IsPair(parts[n]) {
        assert |Pairs(parts)| > 0;
      } else {
        assert |Pairs(parts)| == |Pairs(init)|;
        forall i | 0 <= i < n ensures parts[i] == init[i] { }
      }
    }
  }

  /** The key and the value of every pair are stripped. */
  lemma {:induction false} PairsStripped(parts: seq<string>)
    ensures forall i :: 0 <= i < |Pairs(parts)| ==> IsStripped(Pairs(parts)[i].0) && IsStripped(Pairs(parts)[i].1)
  {
    if parts != [] {
      var init := parts[..|parts| - 1];
      var p := parts[|parts| - 1];
      PairsStripped(init);
      var last := if IsPair(p) then [(KeyOf(p), ValueOf(p))] else [];
      var all := Pairs(init) + last;
      assert Pairs(parts) == all;
      forall i | 0 <= i < |all| ensures IsStripped(all[i].0) && IsStripped(all[i].1) {
        if i < |Pairs(init)| {
          assert all[i] == Pairs(init)[i];
        } else {
          assert all[i] == (KeyOf(p), ValueOf(p));
        }
      }
    }
  }

  /** An entry is empty exactly when there are no pairs. */
  lemma FillEmpty(pairs: seq<(string, string)>)
    ensures Fill(pairs) == map[] <==> pairs == []
  {
    if pairs != [] {
      assert pairs[|pairs| - 1].0 in Fill(pairs);
    }
  }

  /** An entry is empty exactly when no part holds an `=`. */
  lemma EntryEmpty(parts: seq<string>)
    ensures EntryOf(parts) == map[] <==> forall i :: 0 <= i < |parts| ==> !IsPair(parts[i])
  {
    PairsNone(parts);
    FillEmpty(Pairs(parts));
  }

  /** Every key and value of an entry is stripped. */
  lemma EntryStripped(parts: seq<string>)
    ensures forall k :: k in EntryOf(parts) ==> IsStripped(k) && IsStripped(EntryOf(parts)[k])
  {
    PairsStripped(parts);
    forall k | k in EntryOf(parts) ensures IsStripped(k) && IsStripped(EntryOf(parts)[k]) {
      var i := FillLast(Pairs(parts), k);
    }
  }

  /** The non-empty entries of the `--member` values, in order. */
  function MembersOf(member: seq<string>): seq<map<string, string>> {
    if member == [] then []
    else
      var entry := EntryOf(Parts(member[|member| - 1]));
      MembersOf(member[..|member| - 1]) + (if entry != map[] then [entry] else [])
  }

  /** The parser's verdict: the members to add, or exit code 2 when there are none. */
  function MembersResult(member: seq<string>): Result<seq<map<string, string>>, int> {
    var members := MembersOf(member);
    if members == [] then Failure(2) else Success(members)
  }

  lemma PairsStep(parts: seq<string>, j: nat)
    requires j < |parts|
    ensures Pairs(parts[..j + 1]) == Pairs(parts[..j])
      + (if IsPair(parts[j]) then [(KeyOf(parts[j]), ValueOf(parts[j]))] else [])
  {
    assert parts[..j + 1][..j] == parts[..j];
  }

  lemma FillStep(pairs: seq<(string, string)>, kv: (string, string))
    ensures Fill(pairs + [kv]) == Fill(pairs)[kv.0 := kv.1]
  {
    assert (pairs + [kv])[..|pairs|] == pairs;
  }

  /** The inner loop: fill one entry from the parts of one `--member` value. */
  method ParseEntry(parts: seq<string>) returns (entry: map<string, string>)
    ensures entry == EntryOf(parts)
  {
    entry := map[];
    for j := 0 to |parts|
      invariant entry == Fill(Pairs(parts[..j]))
    {
      var p := parts[j];
      PairsStep(parts, j);
      if '=' in p {
        var (k, v) := SplitPair(p);
        FillStep(Pairs(parts[..j]), (KeyOf(p), ValueOf(p)));
        assert (k, v) == SplitPair(p);
        entry := entry[Strip(k) := Strip(v)];
        assert entry == Fill(Pairs(parts[..j]) + [(KeyOf(p), ValueOf(p))]);
        assert Pairs(parts[..j + 1]) == Pairs(parts[..j]) + [(KeyOf(p), ValueOf(p))];
      } else {
        assert Pairs(parts[..j + 1]) == Pairs(parts[..j]);
      }
    }
    assert parts[..|parts|] == parts;
  }

  /** The outer loop of `group-add-members` over the `--member` values. */
  method ParseMembers(member: seq<string>) returns (r: Result<seq<map<string, string>>, int>)
    ensures r == MembersResult(member)
  {
    var members: seq<map<string, string>> := [];
    for k := 0 to |member|
      invariant members == MembersOf(member[..k])
    {
      var entry := ParseEntry(Parts(member[k]));
      assert member[..k + 1][..k] == member[..k];
      if entry != map[] {
        members := members + [entry];
      }
    }
    assert member[..|member|] == member;
    if members == [] {
      r := Failure(2);
    } else {
      r := Success(members);
    }
  }

  /** The members are never empty maps, and there is at most one per `--member` value. */
  lemma {:induction false} MembersShape(member: seq<string>)
    ensures |MembersOf(member)| <= |member|
    ensures forall i :: 0 <= i < |MembersOf(member)| ==> MembersOf(member)[i] != map[]
  {
    if member != [] {
      MembersShape(member[..|member| - 1]);
    }
  }

  /** The command exits with code 2 exactly when none of the values holds an `=` in any part. */
  lemma {:induction false} MembersExit(member: seq<string>)
    ensures MembersResult(member).Failure? <==>
      forall k, i :: 0 <= k < |member| && 0 <= i < |Parts(member[k])| ==> !IsPair(Parts(member[k])[i])
  {
    MembersNone(member);
  }

  /** One more value adds one entry when its entry is non-empty, and none otherwise. */
  lemma MembersLength(member: seq<string>)
    requires member != []
    ensures |MembersOf(member)| == |MembersOf(member[..|member| - 1])|
                                   + (if EntryOf(Parts(member[|member| - 1])) != map[] then 1 else 0)
  {
  }

  /** There are no entries exactly when no part of any value holds an `=`. */
  lemma MembersNone(member: seq<string>)
    ensures MembersOf(member) == [] <==>
      forall k, i :: 0 <= k < |member| && 0 <= i < |Parts(member[k])| ==> !IsPair(Parts(member[k])[i])
  {
    MembersEmpty(member);
    forall k | 0 <= k < |member| {
      EntryEmpty(Parts(member[k]));
    }
  }

  /** There are no entries exactly when every value gives an empty entry. */
  lemma {:induction false} MembersEmpty(member: seq<string>)
    ensures MembersOf(member) == [] <==> forall k :: 0 <= k < |member| ==> EntryOf(Parts(member[k])) == map[]
  {
    if member != [] {
      var n := |member| - 1;
      var init := member[..n];
      var e := EntryOf(Parts(member[n]));
      MembersEmpty(init);
      MembersLength(member);
      if e != map[] {
        assert |MembersOf(member)| > 0;
        assert !(forall k :: 0 <= k < |member| ==> EntryOf(Parts(member[k])) == map[]);
      } else {
        assert |MembersOf(member)| == |MembersOf(init)|;
        forall k | 0 <= k < n ensures member[k] == init[k] { }
        if forall k :: 0 <= k < n ==> EntryOf(Parts(init[k])) == map[] {
          forall k | 0 <= k < |member| ensures EntryOf(Parts(member[k])) == map[] {
            if k < n {
              assert member[k] == init[k];
              assert EntryOf(Parts(init[k])) == map[];
            } else {
              assert k == n;
              assert EntryOf(Parts(member[k])) == e;
            }
          }
        }
      }
    }
  }
}
