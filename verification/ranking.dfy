/**
 * How the balancing run ranks the guilds that still have room: the sort
 * comparator over per-guild summaries, a stable sort under it, and the
 * "first best" guild that the head of that sort turns out to be.
 */
module Ranking {
  import opened Entities

  /** Per-guild summary built for ranking: id, total experience, roster completeness. */
  datatype GuildInfo = GuildInfo(guildId: Id, guildExp: int, needsClass: bool)

  /** The sort comparator: complete rosters first, then lower total experience. */
  function Compare(a: GuildInfo, b: GuildInfo): (r: int)
    ensures r == -1 || r == 0 || r == 1
    ensures r < 0 <==> (a.needsClass && !b.needsClass) || (a.needsClass == b.needsClass && a.guildExp < b.guildExp)
  {
    if a.needsClass && !b.needsClass then -1
    else if !a.needsClass && b.needsClass then 1
    else if a.guildExp < b.guildExp then -1
    else if a.guildExp > b.guildExp then 1
    else 0
  }

  /** `a` sorts strictly before `b`. */
  predicate Precedes(a: GuildInfo, b: GuildInfo) {
    Compare(a, b) < 0
  }

  /**
   * The comparator is consistent in the sense the sort requires: its sign
   * flips with its arguments, and both "before" and "not after" are
   * transitive, so it orders summaries by the pair (complete first, load).
   */
  lemma CompareIsConsistent(a: GuildInfo, b: GuildInfo, c: GuildInfo)
    ensures Compare(a, b) == -Compare(b, a)
    ensures Compare(a, a) == 0
    ensures Precedes(a, b) && Precedes(b, c) ==> Precedes(a, c)
    ensures !Precedes(b, a) && !Precedes(c, b) ==> !Precedes(c, a)
    ensures Compare(a, b) == 0 <==> a.needsClass == b.needsClass && a.guildExp == b.guildExp
  {
  }

  /** No later element sorts strictly before an earlier one. */
  ghost predicate Sorted(s: seq<GuildInfo>) {
    forall i, j :: 0 <= i < j < |s| ==> !Precedes(s[j], s[i])
  }

  /** Inserts `x` ahead of the first element that does not sort strictly before it. */
  function Insert(x: GuildInfo, s: seq<GuildInfo>): (r: seq<GuildInfo>)
    ensures |r| == |s| + 1
    ensures multiset(r) == multiset(s) + multiset{x}
  {
    if |s| == 0 then [x]
    else if Precedes(s[0], x) then
      assert s == [s[0]] + s[1..];
      [s[0]] + Insert(x, s[1..])
    else
      [x] + s
  }

  /** Inserting into a sorted sequence keeps it sorted. */
  lemma {:induction false} InsertSorted(x: GuildInfo, s: seq<GuildInfo>)
    requires Sorted(s)
    ensures Sorted(Insert(x, s))
  {
    var r := Insert(x, s);
    if |s| == 0 {
    } else if Precedes(s[0], x) {
      var rest := Insert(x, s[1..]);
      InsertSorted(x, s[1..]);
      assert r == [s[0]] + rest;
      forall k | 0 <= k < |rest|
        ensures !Precedes(rest[k], s[0])
      {
        assert rest[k] in multiset(rest);
        assert rest[k] in multiset(s[1..]) || rest[k] == x;
        if rest[k] != x {
          var m :| 0 <= m < |s[1..]| && s[1..][m] == rest[k];
          assert s[m + 1] == rest[k];
        } else {
          CompareIsConsistent(x, s[0], x);
        }
      }
    } else {
      assert r == [x] + s;
      forall k | 0 <= k < |s|
        ensures !Precedes(s[k], x)
      {
        CompareIsConsistent(x, s[0], s[k]);
      }
    }
  }

  /**
   * Stable sort under the comparator (insertion sort, front element inserted
   * into the sorted rest). A consistent comparator leaves a stable sort no
   * freedom, so this is the order the run's sort produces.
   */
  function Rank(s: seq<GuildInfo>): (r: seq<GuildInfo>)
    ensures |r| == |s|
    ensures multiset(r) == multiset(s)
  {
    if |s| == 0 then []
    else
      assert s == [s[0]] + s[1..];
      Insert(s[0], Rank(s[1..]))
  }

  /** The stable sort's output is sorted. */
  lemma {:induction false} RankSorted(s: seq<GuildInfo>)
    ensures Sorted(Rank(s))
  {
    if |s| > 0 {
      RankSorted(s[1..]);
      InsertSorted(s[0], Rank(s[1..]));
    }
  }

  /**
   * `k` is the first position holding a best summary: nothing sorts strictly
   * before it, and it sorts strictly before every earlier summary.
   */
  ghost predicate IsFirstBest(s: seq<GuildInfo>, k: int) {
    && 0 <= k < |s|
    && (forall j :: 0 <= j < |s| ==> !Precedes(s[j], s[k]))
    && (forall j :: 0 <= j < k ==> Precedes(s[k], s[j]))
  }

  /** The position of the first best summary, found by a scan from the back. */
  function BestIndex(s: seq<GuildInfo>): (k: nat)
    requires |s| > 0
    ensures IsFirstBest(s, k)
  {
    if |s| == 1 then 0
    else
      var k := BestIndex(s[1..]) + 1;
      if Precedes(s[k], s[0]) then
        assert forall j :: 1 <= j < |s| ==> s[1..][j - 1] == s[j];
        CompareIsConsistent(s[k], s[0], s[k]);
        k
      else
        assert forall j :: 0 <= j < |s| ==> !Precedes(s[j], s[0]) by {
          forall j | 0 <= j < |s|
            ensures !Precedes(s[j], s[0])
          {
            if j > 0 {
              assert s[1..][j - 1] == s[j];
              CompareIsConsistent(s[0], s[k], s[j]);
            }
          }
        }
        0
  }

  /** At most one position is the first best. */
  lemma FirstBestIsUnique(s: seq<GuildInfo>, k1: int, k2: int)
    requires IsFirstBest(s, k1) && IsFirstBest(s, k2)
    ensures k1 == k2
  {
    assert !Precedes(s[k2], s[k1]);
    assert !Precedes(s[k1], s[k2]);
  }

  /** The head of the stable sort is the first best summary of the input. */
  lemma {:induction false} RankHead(s: seq<GuildInfo>)
    requires |s| > 0
    ensures Rank(s)[0] == s[BestIndex(s)]
  {
    if |s| > 1 {
      RankHead(s[1..]);
    }
  }

  /** A position is first best exactly when it is the one the head of the sort comes from. */
  lemma RankHeadCharacterised(s: seq<GuildInfo>, k: int)
    requires |s| > 0
    ensures IsFirstBest(s, k) <==> k == BestIndex(s)
  {
    if IsFirstBest(s, k) {
      FirstBestIsUnique(s, k, BestIndex(s));
    }
  }
}
