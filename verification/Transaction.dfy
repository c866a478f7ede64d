/** Matching requests with ads (business/Transaction.cpp, business/Ad.cpp): keyword intersection,
the winning bid, and the one-entry cache each thread keeps. */
module Transaction {
  import opened Options
  import opened Sorting
  import opened SizeKey
  import Utility

  // --------------------------------------------------------------------- order of keywords

  /** `std::string_view` comparison. */
  predicate Less(a: string, b: string) {
    if b == "" then false
    else if a == "" then true
    else a[0] < b[0] || (a[0] == b[0] && Less(a[1..], b[1..]))
  }

  predicate AtMost(a: string, b: string) {
    !Less(b, a)
  }

  lemma {:induction false} AtMostTransitive(a: string, b: string, c: string)
    requires AtMost(a, b) && AtMost(b, c)
    ensures AtMost(a, c)
  {
    if a != "" && b != "" && c != "" && a[0] == b[0] == c[0] {
      AtMostTransitive(a[1..], b[1..], c[1..]);
    }
  }

  lemma {:induction false} AtMostAntisymmetric(a: string, b: string)
    requires AtMost(a, b) && AtMost(b, a)
    ensures a == b
  {
    if a != "" && b != "" {
      AtMostAntisymmetric(a[1..], b[1..]);
      assert a == [a[0]] + a[1..] && b == [b[0]] + b[1..];
    }
  }

  lemma {:induction false} AtMostTotal(a: string, b: string)
    ensures AtMost(a, b) || AtMost(b, a)
  {
    if a != "" && b != "" {
      AtMostTotal(a[1..], b[1..]);
    }
  }

  lemma AtMostSelf(a: string)
    ensures AtMost(a, a)
  {
    AtMostTotal(a, a);
  }

  ghost predicate Sorted(s: seq<string>) {
    forall i, j :: 0 <= i < j < |s| ==> AtMost(s[i], s[j])
  }

  lemma LessIsWeakOrder()
    ensures WeakOrder(Less)
  {
    hide Less;
    forall a, b | Less(a, b) ensures !Less(b, a) {
      AtMostTotal(a, b);
    }
    forall a, b, c | Less(a, c) ensures Less(a, b) || Less(b, c) {
      if !Less(a, b) && !Less(b, c) {
        AtMostTransitive(c, b, a);
      }
    }
  }

  /** `std::sort` of keywords. */
  function SortKeywords(s: seq<string>): (r: seq<string>)
    ensures multiset(r) == multiset(s)
  {
    Sort(Less, s)
  }

  lemma SortKeywordsSorted(s: seq<string>)
    ensures Sorted(SortKeywords(s))
  {
    hide Less;
    LessIsWeakOrder();
    SortSorted(Less, s);
  }

  /** Whatever algorithm sorts them, the sorted keywords are the same. */
  lemma {:induction false} SortedIsUnique(a: seq<string>, b: seq<string>)
    requires Sorted(a) && Sorted(b) && multiset(a) == multiset(b)
    ensures a == b
  {
    hide AtMost, Sorted;
    SameSize(a, b);
    if a != [] {
      var n := |a| - 1;
      assert a[n] in multiset(b) && b[n] in multiset(a);
      LastIsGreatest(a, b[n]);
      LastIsGreatest(b, a[n]);
      AtMostAntisymmetric(a[n], b[n]);
      WithoutLast(a);
      WithoutLast(b);
      SortedFront(a);
      SortedFront(b);
      SortedIsUnique(a[..n], b[..n]);
    }
  }

  lemma SortedFront(s: seq<string>)
    requires Sorted(s) && s != []
    ensures Sorted(s[..|s| - 1])
  {
    hide AtMost;
  }

  lemma SameSize(a: seq<string>, b: seq<string>)
    requires multiset(a) == multiset(b)
    ensures |a| == |b|
  {
    assert |a| == |multiset(a)| == |multiset(b)| == |b|;
  }

  lemma WithoutLast(s: seq<string>)
    requires s != []
    ensures var n := |s| - 1; s == s[..n] + [s[n]] && multiset(s[..n]) == multiset(s) - multiset{s[n]}
  {
    assert s == s[..|s| - 1] + [s[|s| - 1]];
  }

  lemma LastIsGreatest(s: seq<string>, x: string)
    requires Sorted(s) && x in s
    ensures AtMost(x, s[|s| - 1])
  {
    AtMostSelf(x);
  }

  // ------------------------------------------------------------------------- intersection

  datatype Bid = Bid(adId: string, keyword: string, money: int)

  datatype Ad = Ad(id: string, bids: seq<Bid>)

  ghost predicate SortedBids(bids: seq<Bid>) {
    forall i, j :: 0 <= i < j < |bids| ==> AtMost(bids[i].keyword, bids[j].keyword)
  }

  ghost function Count(s: seq<string>, k: string): nat {
    if s == [] then 0 else Count(s[..|s| - 1], k) + (if s[|s| - 1] == k then 1 else 0)
  }

  ghost function CountBids(s: seq<Bid>, k: string): nat {
    if s == [] then 0 else CountBids(s[..|s| - 1], k) + (if s[|s| - 1].keyword == k then 1 else 0)
  }

  /** Of the bids with one keyword, as many as the request has that keyword, the first ones. */
  ghost function Kept(bids: seq<Bid>, keywords: seq<string>): seq<Bid> {
    if bids == [] then []
    else
      var n := |bids| - 1;
      Kept(bids[..n], keywords)
      + (if CountBids(bids[..n], bids[n].keyword) < Count(keywords, bids[n].keyword) then [bids[n]] else [])
  }

  /** As a multiset: each keyword appears as often as in both. */
  lemma {:induction false} KeptCounts(bids: seq<Bid>, keywords: seq<string>, k: string)
    ensures var m, n := CountBids(bids, k), Count(keywords, k);
      CountBids(Kept(bids, keywords), k) == if m < n then m else n
  {
    if bids == [] {
    } else {
      var n := |bids| - 1;
      KeptCounts(bids[..n], keywords, k);
      CountBidsAppend(Kept(bids[..n], keywords), bids[n], k);
    }
  }

  lemma CountBidsAppend(s: seq<Bid>, b: Bid, k: string)
    ensures CountBids(s + [b], k) == CountBids(s, k) + (if b.keyword == k then 1 else 0)
    ensures s + [] == s
  {
    assert (s + [b])[..|s|] == s;
  }

  lemma {:induction false} CountNone(s: seq<string>, k: string)
    requires forall i :: 0 <= i < |s| ==> s[i] != k
    ensures Count(s, k) == 0
  {
    if s != [] {
      CountNone(s[..|s| - 1], k);
    }
  }

  lemma {:induction false} CountBidsNone(s: seq<Bid>, k: string)
    requires forall i :: 0 <= i < |s| ==> s[i].keyword != k
    ensures CountBids(s, k) == 0
  {
    if s != [] {
      CountBidsNone(s[..|s| - 1], k);
    }
  }

  lemma {:induction false} CountPrefix(s: seq<string>, j: nat, k: string)
    requires j <= |s| && forall i :: j <= i < |s| ==> s[i] != k
    ensures Count(s, k) == Count(s[..j], k)
  {
    if j < |s| {
      CountPrefix(s[..|s| - 1], j, k);
      assert s[..|s| - 1][..j] == s[..j];
    } else {
      assert s[..j] == s;
    }
  }

  lemma CountNext(s: seq<string>, j: nat, k: string)
    requires j < |s|
    ensures Count(s[..j + 1], k) == Count(s[..j], k) + (if s[j] == k then 1 else 0)
  {
    assert s[..j + 1][..j] == s[..j];
  }

  lemma CountBidsNext(s: seq<Bid>, i: nat, k: string)
    requires i < |s|
    ensures CountBids(s[..i + 1], k) == CountBids(s[..i], k) + (if s[i].keyword == k then 1 else 0)
  {
    assert s[..i + 1][..i] == s[..i];
  }

  ghost predicate KeywordsBelow(bids: seq<Bid>, keywords: seq<string>, i: nat, j: nat)
    requires j <= |keywords|
  {
    forall p, q :: 0 <= p < j && i <= q < |bids| ==> AtMost(keywords[p], bids[q].keyword)
  }

  ghost predicate BidsBelow(bids: seq<Bid>, keywords: seq<string>, i: nat, j: nat)
    requires i <= |bids|
  {
    forall p, q :: 0 <= p < i && j <= q < |keywords| ==> AtMost(bids[p].keyword, keywords[q])
  }

  /** Of the next bid's keyword, no more was consumed among the keywords than among the bids. */
  ghost predicate BidDue(bids: seq<Bid>, keywords: seq<string>, i: nat, j: nat)
    requires i <= |bids| && j <= |keywords|
  {
    i < |bids| ==> Count(keywords[..j], bids[i].keyword) <= CountBids(bids[..i], bids[i].keyword)
  }

  ghost predicate KeywordDue(bids: seq<Bid>, keywords: seq<string>, i: nat, j: nat)
    requires i <= |bids| && j <= |keywords|
  {
    j < |keywords| ==> CountBids(bids[..i], keywords[j]) <= Count(keywords[..j], keywords[j])
  }

  /** Where the merge stands: what was consumed of each side is at most what is left of the other,
  and equal keywords were consumed in pairs. */
  ghost predicate Merging(bids: seq<Bid>, keywords: seq<string>, i: nat, j: nat) {
    && i <= |bids| && j <= |keywords|
    && KeywordsBelow(bids, keywords, i, j) && BidsBelow(bids, keywords, i, j)
    && BidDue(bids, keywords, i, j) && KeywordDue(bids, keywords, i, j)
  }

  /** A later keyword, if it is a different one, was not consumed on the other side. */
  lemma FreshKeyword(bids: seq<Bid>, keywords: seq<string>, i: nat, j: nat, last: string)
    requires SortedBids(bids) && i < |bids| && j <= |keywords|
    requires (forall p :: 0 <= p < j ==> AtMost(keywords[p], last)) && AtMost(last, bids[i].keyword)
    ensures bids[i].keyword != last ==> Count(keywords[..j], bids[i].keyword) == 0
  {
    hide AtMost;
    if bids[i].keyword != last {
      forall p | 0 <= p < j ensures keywords[p] != bids[i].keyword {
        if keywords[p] == bids[i].keyword {
          AtMostAntisymmetric(last, keywords[p]);
        }
      }
      CountNone(keywords[..j], bids[i].keyword);
    }
  }

  lemma FreshBid(bids: seq<Bid>, keywords: seq<string>, i: nat, j: nat, last: string)
    requires Sorted(keywords) && i <= |bids| && j < |keywords|
    requires (forall p :: 0 <= p < i ==> AtMost(bids[p].keyword, last)) && AtMost(last, keywords[j])
    ensures keywords[j] != last ==> CountBids(bids[..i], keywords[j]) == 0
  {
    hide AtMost;
    if keywords[j] != last {
      forall p | 0 <= p < i ensures bids[p].keyword != keywords[j] {
        if bids[p].keyword == keywords[j] {
          AtMostAntisymmetric(last, bids[p].keyword);
        }
      }
      CountBidsNone(bids[..i], keywords[j]);
    }
  }

  /** A bid below the next keyword is below all the keywords left. */
  lemma NoPartner(bids: seq<Bid>, keywords: seq<string>, i: nat, j: nat, q: nat)
    requires Sorted(keywords) && i < |bids| && j <= q < |keywords| && Less(bids[i].keyword, keywords[j])
    ensures AtMost(bids[i].keyword, keywords[q]) && keywords[q] != bids[i].keyword
  {
    hide Less;
    var a := bids[i].keyword;
    AtMostTotal(a, keywords[j]);
    AtMostSelf(keywords[j]);
    assert AtMost(keywords[j], keywords[q]) && !AtMost(keywords[j], a);
    AtMostTransitive(a, keywords[j], keywords[q]);
  }

  /** The next bid is due, once the one before it is settled. */
  lemma NextBidDue(bids: seq<Bid>, keywords: seq<string>, i: nat, j: nat)
    requires SortedBids(bids) && i < |bids| && j <= |keywords|
    requires forall p :: 0 <= p < j ==> AtMost(keywords[p], bids[i].keyword)
    requires Count(keywords[..j], bids[i].keyword) <= CountBids(bids[..i + 1], bids[i].keyword)
    ensures BidDue(bids, keywords, i + 1, j)
  {
    hide AtMost, Count, CountBids;
    if i + 1 < |bids| {
      FreshKeyword(bids, keywords, i + 1, j, bids[i].keyword);
    }
  }

  lemma NextKeywordDue(bids: seq<Bid>, keywords: seq<string>, i: nat, j: nat)
    requires Sorted(keywords) && i <= |bids| && j < |keywords|
    requires forall p :: 0 <= p < i ==> AtMost(bids[p].keyword, keywords[j])
    requires CountBids(bids[..i], keywords[j]) <= Count(keywords[..j + 1], keywords[j])
    ensures KeywordDue(bids, keywords, i, j + 1)
  {
    hide AtMost, Count, CountBids;
    if j + 1 < |keywords| {
      FreshBid(bids, keywords, i, j + 1, keywords[j]);
    }
  }

  lemma KeptNext(bids: seq<Bid>, keywords: seq<string>, i: nat)
    requires i < |bids|
    ensures Kept(bids[..i + 1], keywords) == Kept(bids[..i], keywords)
            + (if CountBids(bids[..i], bids[i].keyword) < Count(keywords, bids[i].keyword) then [bids[i]] else [])
  {
    assert bids[..i + 1][..i] == bids[..i];
  }

  /** A bid below every keyword left has no partner. */
  lemma SkipBid(bids: seq<Bid>, keywords: seq<string>, i: nat, j: nat)
    requires SortedBids(bids) && Sorted(keywords) && Merging(bids, keywords, i, j) && i < |bids|
    requires j == |keywords| || Less(bids[i].keyword, keywords[j])
    ensures Merging(bids, keywords, i + 1, j) && Kept(bids[..i + 1], keywords) == Kept(bids[..i], keywords)
  {
    hide AtMost, Less, Count, CountBids, Kept;
    var a := bids[i].keyword;
    forall q | j <= q < |keywords| ensures AtMost(a, keywords[q]) && keywords[q] != a {
      NoPartner(bids, keywords, i, j, q);
    }
    CountPrefix(keywords, j, a);
    KeptNext(bids, keywords, i);
    CountBidsNext(bids, i, a);
    NextBidDue(bids, keywords, i, j);
    if j < |keywords| {
      CountBidsNext(bids, i, keywords[j]);
    }
  }

  /** A keyword below every bid left matches none of them. */
  lemma SkipKeyword(bids: seq<Bid>, keywords: seq<string>, i: nat, j: nat)
    requires SortedBids(bids) && Sorted(keywords) && Merging(bids, keywords, i, j) && i < |bids| && j < |keywords|
    requires Less(keywords[j], bids[i].keyword)
    ensures Merging(bids, keywords, i, j + 1)
  {
    hide AtMost, Less, Count, CountBids;
    var b := keywords[j];
    BelowAllBids(bids, keywords, i, j);
    CountNext(keywords, j, bids[i].keyword);
    CountNext(keywords, j, b);
    NextKeywordDue(bids, keywords, i, j);
  }

  lemma BelowAllBids(bids: seq<Bid>, keywords: seq<string>, i: nat, j: nat)
    requires SortedBids(bids) && i < |bids| && j < |keywords| && Less(keywords[j], bids[i].keyword)
    ensures keywords[j] != bids[i].keyword
    ensures forall q :: i <= q < |bids| ==> AtMost(keywords[j], bids[q].keyword)
  {
    hide Less;
    AtMostTotal(keywords[j], bids[i].keyword);
    AtMostSelf(bids[i].keyword);
    AtMostSelf(keywords[j]);
    forall q | i <= q < |bids| ensures AtMost(keywords[j], bids[q].keyword) {
      AtMostTransitive(keywords[j], bids[i].keyword, bids[q].keyword);
    }
  }

  /** Equal ones pair up, and the bid is kept. */
  lemma TakeBid(bids: seq<Bid>, keywords: seq<string>, i: nat, j: nat)
    requires SortedBids(bids) && Sorted(keywords) && Merging(bids, keywords, i, j) && i < |bids| && j < |keywords|
    requires keywords[j] == bids[i].keyword
    ensures Merging(bids, keywords, i + 1, j + 1)
    ensures Kept(bids[..i + 1], keywords) == Kept(bids[..i], keywords) + [bids[i]]
  {
    hide AtMost, Less, Count, CountBids, Kept;
    var a := bids[i].keyword;
    AtMostSelf(a);
    CountNext(keywords, j, a);
    CountBidsNext(bids, i, a);
    CountMonotone(keywords, j + 1, a);
    KeptNext(bids, keywords, i);
    NextBidDue(bids, keywords, i, j + 1);
    NextKeywordDue(bids, keywords, i + 1, j);
  }

  lemma {:induction false} CountMonotone(s: seq<string>, j: nat, k: string)
    requires j <= |s|
    ensures Count(s[..j], k) <= Count(s, k)
  {
    if j < |s| {
      CountMonotone(s[..|s| - 1], j, k);
      assert s[..|s| - 1][..j] == s[..j];
    } else {
      assert s[..j] == s;
    }
  }

  lemma {:induction false} SkipRest(bids: seq<Bid>, keywords: seq<string>, i: nat)
    requires SortedBids(bids) && Sorted(keywords) && Merging(bids, keywords, i, |keywords|)
    ensures Kept(bids, keywords) == Kept(bids[..i], keywords)
    decreases |bids| - i
  {
    if i < |bids| {
      SkipBid(bids, keywords, i, |keywords|);
      SkipRest(bids, keywords, i + 1);
    } else {
      assert bids[..i] == bids;
    }
  }

  /** `std::set_intersection` with the comparator on keywords, appending to `out`. */
  method SetIntersection(bids: seq<Bid>, keywords: seq<string>, appendTo: seq<Bid>) returns (out: seq<Bid>)
    requires SortedBids(bids) && Sorted(keywords)
    ensures out == appendTo + Kept(bids, keywords)
  {
    hide Less, Kept, Merging;
    var i, j := 0, 0;
    out := appendTo;
    MergeStarts(bids, keywords);
    while i < |bids| && j < |keywords|
      invariant i <= |bids| && j <= |keywords| && Merging(bids, keywords, i, j)
      invariant out == appendTo + Kept(bids[..i], keywords)
      decreases |bids| + |keywords| - i - j
    {
      if Less(bids[i].keyword, keywords[j]) {
        SkipBid(bids, keywords, i, j);
        i := i + 1;
      } else if Less(keywords[j], bids[i].keyword) {
        SkipKeyword(bids, keywords, i, j);
        j := j + 1;
      } else {
        AtMostAntisymmetric(bids[i].keyword, keywords[j]);
        TakeBid(bids, keywords, i, j);
        out := out + [bids[i]];
        i, j := i + 1, j + 1;
      }
    }
    if j == |keywords| {
      SkipRest(bids, keywords, i);
    } else {
      assert bids[..i] == bids;
    }
  }

  lemma MergeStarts(bids: seq<Bid>, keywords: seq<string>)
    ensures Merging(bids, keywords, 0, 0) && Kept(bids[..0], keywords) == []
  {
  }

  lemma {:induction false} NoKeywordsKeepNothing(bids: seq<Bid>)
    ensures Kept(bids, []) == []
  {
    if bids != [] {
      NoKeywordsKeepNothing(bids[..|bids| - 1]);
    }
  }

  // --------------------------------------------------------------------- the winning bid

  /** The earliest of the greatest values. */
  ghost predicate IsFirstMax(values: seq<int>, i: nat) {
    && i < |values|
    && (forall j :: 0 <= j < |values| ==> values[j] <= values[i])
    && (forall j :: 0 <= j < i ==> values[j] < values[i])
  }

  lemma FirstMaxIsUnique(values: seq<int>, i: nat, j: nat)
    requires IsFirstMax(values, i) && IsFirstMax(values, j)
    ensures i == j
  {
    assert values[i] == values[j];
  }

  ghost function FirstMax(values: seq<int>): (i: nat)
    requires values != []
    ensures IsFirstMax(values, i)
  {
    var n := |values| - 1;
    if n == 0 then 0
    else
      var k := FirstMax(values[..n]);
      assert values == values[..n] + [values[n]];
      if values[n] > values[k] then n else k
  }

  /** `int money = _bids[i]._money`: a long, cut to 32 bits. */
  function Trunc32(money: int): int {
    (money + 0x8000_0000) % 0x1_0000_0000 - 0x8000_0000
  }

  ghost function Moneys(bids: seq<Bid>): (m: seq<int>)
    ensures |m| == |bids|
  {
    seq(|bids|, i requires 0 <= i < |bids| => bids[i].money)
  }

  ghost function Truncated(bids: seq<Bid>): (m: seq<int>)
    ensures |m| == |bids|
  {
    seq(|bids|, i requires 0 <= i < |bids| => Trunc32(bids[i].money))
  }

  /** `findWinningBid` */
  method FindWinningBid(bids: seq<Bid>) returns (index: nat)
    requires bids != []
    ensures index < |bids| && IsFirstMax(Truncated(bids), index)
  {
    hide Trunc32;
    index := 0;
    var max := Trunc32(bids[0].money);
    for i := 1 to |bids|
      invariant index < i && max == Trunc32(bids[index].money)
      invariant forall j :: 0 <= j < i ==> Trunc32(bids[j].money) <= max
      invariant forall j :: 0 <= j < index ==> Trunc32(bids[j].money) < max
    {
      var money := Trunc32(bids[i].money);
      if money > max {
        max := money;
        index := i;
      }
    }
  }

  /** The winner has the most money, the earliest on ties, whenever no bid exceeds the 32-bit range. */
  lemma WinnerHasMostMoney(bids: seq<Bid>, index: nat)
    requires bids != [] && IsFirstMax(Truncated(bids), index)
    requires forall i :: 0 <= i < |bids| ==> -0x8000_0000 <= bids[i].money < 0x8000_0000
    ensures IsFirstMax(Moneys(bids), index)
  {
    forall i | 0 <= i < |bids| ensures Trunc32(bids[i].money) == bids[i].money {
    }
    assert Truncated(bids) == Moneys(bids);
  }

  ghost predicate Within(bids: seq<Bid>, low: int, high: int) {
    forall i :: 0 <= i < |bids| ==> low <= bids[i].money <= high
  }

  /** The 32-bit window a value falls in. */
  function Window(money: int): int {
    (money + 0x8000_0000) / 0x1_0000_0000
  }

  /** For bids between two amounts the winner is always right if and only if the two amounts fall
  in one 32-bit window. */
  lemma WinnerIsRightIff(low: int, high: int)
    requires low <= high
    ensures Window(low) == Window(high) <==>
      forall bids: seq<Bid>, index: nat :: bids != [] && Within(bids, low, high) && IsFirstMax(Truncated(bids), index)
        ==> IsFirstMax(Moneys(bids), index)
  {
    if Window(low) == Window(high) {
      forall bids: seq<Bid>, index: nat | bids != [] && Within(bids, low, high) && IsFirstMax(Truncated(bids), index)
        ensures IsFirstMax(Moneys(bids), index)
      {
        SameWindow(bids, low, high, index);
      }
    } else {
      var edge := 0x1_0000_0000 * Window(high) - 0x8000_0000;
      var bids := [Bid("", "", edge - 1), Bid("", "", edge)];
      EdgeOfWindow(low, high, edge);
      assert Truncated(bids) == [Trunc32(edge - 1), Trunc32(edge)];
      assert IsFirstMax(Truncated(bids), 0);
      assert Moneys(bids)[1] > Moneys(bids)[0];
      assert Within(bids, low, high);
    }
  }

  lemma EdgeOfWindow(low: int, high: int, edge: int)
    requires low <= high && Window(low) != Window(high) && edge == 0x1_0000_0000 * Window(high) - 0x8000_0000
    ensures low <= edge - 1 && edge <= high && Trunc32(edge - 1) > Trunc32(edge)
  {
  }

  lemma SameWindow(bids: seq<Bid>, low: int, high: int, index: nat)
    requires bids != [] && Within(bids, low, high) && IsFirstMax(Truncated(bids), index) && Window(low) == Window(high)
    ensures IsFirstMax(Moneys(bids), index)
  {
    forall i | 0 <= i < |bids| ensures Truncated(bids)[i] == bids[i].money - 0x1_0000_0000 * Window(low) {
      InWindow(bids[i].money, low, high);
    }
  }

  lemma InWindow(money: int, low: int, high: int)
    requires low <= money <= high && Window(low) == Window(high)
    ensures Trunc32(money) == money - 0x1_0000_0000 * Window(low)
  {
  }

  // ------------------------------------------------------------------------- the ad table

  type Table = map<Key, seq<Ad>>

  ghost predicate SortedTable(table: Table) {
    forall key :: key in table ==> SortedAds(table[key])
  }

  ghost predicate SortedAds(ads: seq<Ad>) {
    forall i :: 0 <= i < |ads| ==> SortedBids(ads[i].bids)
  }

  /** The bids of an ad: keyword and money alternate, and no money means the default bid. `cents`
  stands for the parsing and rounding of an amount. */
  ghost function BidsOf(adId: string, parts: seq<string>, cents: string -> int, defaultBid: int): seq<Bid> {
    if |parts| < 2 then []
    else
      var money := cents(parts[1]);
      [Bid(adId, parts[0], if money == 0 then defaultBid else money)] + BidsOf(adId, parts[2..], cents, defaultBid)
  }

  /** Bid number i comes from strings 2i and 2i + 1; a last string without a partner is ignored. */
  lemma {:induction false} BidsParsed(adId: string, parts: seq<string>, cents: string -> int, defaultBid: int, i: nat)
    ensures |BidsOf(adId, parts, cents, defaultBid)| == |parts| / 2
    ensures 2 * i + 1 < |parts| ==>
      BidsOf(adId, parts, cents, defaultBid)[i]
      == Bid(adId, parts[2 * i], if cents(parts[2 * i + 1]) == 0 then defaultBid else cents(parts[2 * i + 1]))
  {
    if |parts| >= 2 {
      BidsParsed(adId, parts[2..], cents, defaultBid, if i > 0 then i - 1 else 0);
    }
  }

  /** `operator<` of bids. */
  predicate LessBid(a: Bid, b: Bid) {
    Less(a.keyword, b.keyword)
  }

  lemma LessBidIsWeakOrder()
    ensures WeakOrder(LessBid)
  {
    hide Less;
    LessIsWeakOrder();
  }

  lemma SortBids(bids: seq<Bid>)
    ensures SortedBids(Sort(LessBid, bids))
  {
    hide Less;
    LessBidIsWeakOrder();
    SortSorted(LessBid, bids);
  }

  /** `parseArray`: the same bids, in keyword order. */
  method ParseArray(adId: string, parts: seq<string>, cents: string -> int, defaultBid: int) returns (bids: seq<Bid>)
    ensures SortedBids(bids) && multiset(bids) == multiset(BidsOf(adId, parts, cents, defaultBid))
  {
    hide Less, LessBid, AtMost, SortedBids, Sort;
    var unsorted: seq<Bid> := [];
    var i := 0;
    assert parts[0..] == parts;
    while i + 1 < |parts|
      invariant i <= |parts|
      invariant unsorted + BidsOf(adId, parts[i..], cents, defaultBid) == BidsOf(adId, parts, cents, defaultBid)
    {
      var money := cents(parts[i + 1]);
      if money == 0 {
        money := defaultBid;
      }
      assert parts[i..][2..] == parts[i + 2..];
      unsorted := unsorted + [Bid(adId, parts[i], money)];
      i := i + 2;
    }
    assert unsorted == BidsOf(adId, parts, cents, defaultBid);
    SortBids(unsorted);
    bids := Sort(LessBid, unsorted);
  }

  /** `getAdsBySize` */
  function AdsBySize(table: Table, key: Key): seq<Ad> {
    if key in table then table[key] else []
  }

  /** The ads of one size among the lines of the file, in file order. A line that does not parse
  is skipped. */
  ghost function AdsOf(lines: seq<Option<(Key, Ad)>>, key: Key): seq<Ad> {
    if lines == [] then []
    else
      var n := |lines| - 1;
      AdsOf(lines[..n], key) + (if lines[n].Some? && lines[n].value.0 == key then [lines[n].value.1] else [])
  }

  /** `readAds`: `emplace` and `push_back`. */
  method ReadAds(lines: seq<Option<(Key, Ad)>>) returns (table: Table)
    ensures forall key :: AdsBySize(table, key) == AdsOf(lines, key)
    ensures (forall i :: 0 <= i < |lines| && lines[i].Some? ==> SortedBids(lines[i].value.1.bids)) ==> SortedTable(table)
  {
    hide SortedBids;
    table := map[];
    for i := 0 to |lines|
      invariant forall key :: AdsBySize(table, key) == AdsOf(lines[..i], key)
      invariant (forall k :: 0 <= k < i && lines[k].Some? ==> SortedBids(lines[k].value.1.bids)) ==> SortedTable(table)
    {
      assert lines[..i + 1][..i] == lines[..i];
      if lines[i].Some? {
        var (key, ad) := lines[i].value;
        table := table[key := AdsBySize(table, key) + [ad]];
      }
    }
    assert lines[..|lines|] == lines;
  }

  // -------------------------------------------------------------------------- the request

  /** The text between `start` and '&', if `start` occurs. */
  function KeywordText(request: string, start: string): Option<string>
    requires '&' !in start
  {
    match Utility.FindString(request, start, 0)
    case None => None
    case Some(beg) =>
      var end := Utility.FindChar(request, '&', beg);
      KeywordsEnd(request, start, beg);
      Some(request[beg + |start|..if end.None? then |request| else end.value])
  }

  lemma KeywordsEnd(request: string, start: string, beg: nat)
    requires '&' !in start && beg + |start| <= |request| && request[beg..beg + |start|] == start
    ensures var end := Utility.FindChar(request, '&', beg); end.Some? ==> beg + |start| <= end.value
  {
    forall k | beg <= k < beg + |start| ensures request[k] != '&' {
      assert request[k] == start[k - beg];
    }
  }

  const START_KEYWORDS1 := "kw="
  const START_KEYWORDS2 := "keywords="

  /** The sorted keywords of a request, in either of its two formats. */
  ghost function KeywordsOf(request: string): seq<string> {
    var first := KeywordText(request, START_KEYWORDS1);
    var text := if first.Some? then first else KeywordText(request, START_KEYWORDS2);
    if text.None? then [] else SortKeywords(Utility.Rows(text.value, '+', 0))
  }

  /** The bracketed id, if there is one, and what follows it. */
  function SplitId(input: string): Option<(string, string)> {
    match Utility.FindChar(input, ']', 0)
    case Some(pos) => if input[0] == '[' then Some((input[..pos + 1], input[pos + 1..])) else None
    case None => None
  }

  // ---------------------------------------------------------------------------- the reply

  /** What gets printed. */
  datatype Reply =
    | Unknown                                       // [unknown] Invalid request
    | NoMatch(id: string)                           // 0, 0.0
    | Winner(id: string, adId: string, money: int)
    | Report(id: string, key: Key, request: string, keywords: seq<string>, bids: seq<Bid>, ending: Ending)

  datatype Ending = EmptyEnding | InvalidEnding | WinnerEnding(winner: Bid)

  /** The bids of all ads that match, ad by ad. */
  ghost function Matches(ads: seq<Ad>, keywords: seq<string>): seq<Bid> {
    if ads == [] then []
    else Matches(ads[..|ads| - 1], keywords) + Kept(ads[|ads| - 1].bids, keywords)
  }

  ghost function ReplyFor(id: string, key: Key, request: string, keywords: seq<string>, bids: seq<Bid>, diagnostics: bool): Reply
  {
    var ending := if bids == [] then EmptyEnding else WinnerEnding(bids[FirstMax(Truncated(bids))]);
    if diagnostics then Report(id, key, request, keywords, bids, ending)
    else if bids == [] then NoMatch(id)
    else Winner(id, ending.winner.adId, ending.winner.money)
  }

  /** The reply, by direct lookup: a function of the table and the request alone. */
  ghost function ReplyOf(table: Table, key: Key, input: string, diagnostics: bool): Reply {
    if input == "" then Unknown
    else if key == ZERO_SIZE || SplitId(input).None? then ReplyFor("", key, "", [], [], diagnostics)
    else
      var (id, request) := SplitId(input).value;
      var keywords := KeywordsOf(request);
      ReplyFor(id, key, request, keywords, Matches(AdsBySize(table, key), keywords), diagnostics)
  }

  lemma {:induction false} NoKeywordsMatchNothing(ads: seq<Ad>)
    ensures Matches(ads, []) == []
  {
    if ads != [] {
      NoKeywordsMatchNothing(ads[..|ads| - 1]);
      NoKeywordsKeepNothing(ads[|ads| - 1].bids);
    }
  }

  /** The id is everything up to the first ']', if the input starts with '['. */
  lemma SplitIdIff(input: string, id: string, request: string)
    ensures SplitId(input) == Some((id, request)) <==>
      && input == id + request && |id| > 1 && id[0] == '[' && id[|id| - 1] == ']' && ']' !in id[..|id| - 1]
  {
    Utility.FindCharFirst(input, ']', 0);
    var pos := Utility.FindChar(input, ']', 0);
    if SplitId(input) == Some((id, request)) {
      assert id == input[..pos.value + 1] && id[..|id| - 1] == input[..pos.value];
    }
    if input == id + request && |id| > 1 && id[0] == '[' && id[|id| - 1] == ']' && ']' !in id[..|id| - 1] {
      forall i | 0 <= i < |id| - 1 ensures input[i] != ']' {
        assert input[i] == id[..|id| - 1][i];
      }
      assert input[|id| - 1] == ']' && pos == Some(|id| - 1);
    }
  }

  ghost function Joined(words: seq<string>): string {
    if words == [] then "" else if |words| == 1 then words[0] else words[0] + "+" + Joined(words[1..])
  }

  /** A word of a list: without the separators, and the last one not empty. */
  ghost predicate AreWords(words: seq<string>) {
    (forall i :: 0 <= i < |words| ==> '+' !in words[i] && '&' !in words[i])
    && (words != [] ==> words[|words| - 1] != "")
  }

  /** The two formats: what follows "kw=", or else "keywords=", up to '&' are the keywords. */
  lemma KeywordsParsed(before: string, start: string, words: seq<string>, after: string)
    requires start == "kw=" || start == "keywords="
    requires AreWords(words) && (after == "" || after[0] == '&')
    requires var request := before + start + Joined(words) + after;
      && (forall i :: 0 <= i < |before| ==> !Utility.OccursAt(request, start, i))
      && (start == "keywords=" ==> forall i :: !Utility.OccursAt(request, "kw=", i))
    ensures KeywordsOf(before + start + Joined(words) + after) == SortKeywords(words)
  {
    hide SortKeywords, Joined, Utility.Rows, KeywordText;
    var request := before + start + Joined(words) + after;
    NoAmpersand(words);
    TextFound(before, start, Joined(words), after);
    JoinedRows(words);
    if start == "keywords=" {
      NotFound(request, "kw=");
    }
  }

  lemma NotFound(request: string, start: string)
    requires '&' !in start && forall i :: !Utility.OccursAt(request, start, i)
    ensures KeywordText(request, start) == None
  {
  }

  lemma TextFound(before: string, start: string, text: string, after: string)
    requires '&' !in start && '&' !in text && (after == "" || after[0] == '&')
    requires var request := before + start + text + after;
      forall i :: 0 <= i < |before| ==> !Utility.OccursAt(request, start, i)
    ensures KeywordText(before + start + text + after, start) == Some(text)
  {
    var request := before + start + text + after;
    var beg, end := |before|, |before + start + text|;
    assert request[beg..beg + |start|] == start;
    assert Utility.OccursAt(request, start, beg);
    assert Utility.FindString(request, start, 0) == Some(beg);
    forall i | beg <= i < end ensures request[i] != '&' {
      assert request[i] == (start + text)[i - beg];
    }
    Utility.FindCharFirst(request, '&', beg);
    assert after != "" ==> request[end] == '&';
    assert request[beg + |start|..end] == text;
  }

  lemma {:induction false} NoAmpersand(words: seq<string>)
    requires AreWords(words)
    ensures '&' !in Joined(words)
  {
    if |words| > 1 {
      NoAmpersand(words[1..]);
    }
  }

  lemma {:induction false} JoinedRows(words: seq<string>)
    requires AreWords(words)
    ensures Utility.Rows(Joined(words), '+', 0) == words
  {
    hide Utility.Rows;
    if words == [] {
      Utility.NoRows("", '+', 0);
    } else if |words| == 1 {
      Utility.FindCharFirst(words[0], '+', 0);
      Utility.LastRow(words[0], '+', 0, 0);
      assert words[0][0..] == words[0];
    } else {
      JoinedRows(words[1..]);
      Utility.RowsPrepend(words[0], Joined(words[1..]), '+', 0);
      assert (words[0] + ['+'])[..|words[0]| + 0] == words[0];
    }
  }

  /** What a valid request is answered: if bids match, both forms of the reply name the first of those
  with the greatest amount, as `findWinningBid` compares them. */
  lemma ReplyNamesWinner(table: Table, key: Key, input: string)
    requires input != "" && key != (0, 0) && SplitId(input).Some?
    ensures var (id, request) := SplitId(input).value;
      var keywords := KeywordsOf(request);
      var bids := Matches(AdsBySize(table, key), keywords);
      var line, report := ReplyOf(table, key, input, false), ReplyOf(table, key, input, true);
      if bids == [] then line == NoMatch(id) && report == Report(id, key, request, keywords, [], EmptyEnding)
      else exists i: nat :: IsFirstMax(Truncated(bids), i) && line == Winner(id, bids[i].adId, bids[i].money)
                            && report == Report(id, key, request, keywords, bids, WinnerEnding(bids[i]))
  {
    hide Matches, KeywordsOf, SplitId, Truncated;
    var bids := Matches(AdsBySize(table, key), KeywordsOf(SplitId(input).value.1));
    if bids != [] {
      var i := FirstMax(Truncated(bids));
      assert IsFirstMax(Truncated(bids), i);
    }
  }

  /** And what the others are answered. */
  lemma ReplyToInvalid(table: Table, key: Key, input: string)
    requires input == "" || key == (0, 0) || SplitId(input).None?
    ensures ReplyOf(table, key, input, false) == if input == "" then Unknown else NoMatch("")
    ensures input != "" ==> ReplyOf(table, key, input, true) == Report("", key, "", [], [], EmptyEnding)
  {
  }

  // ------------------------------------------------------------------- one worker thread

  /** The cache, after a series of requests: the key, and the ads. */
  datatype Cache = Cache(key: Key, ads: seq<Ad>) {
    function Lookup(table: Table, k: Key): Cache {
      if k != key then Cache(k, AdsBySize(table, k)) else this
    }

    /** Except for the zero size, which no valid request has, the cache holds the ads of its key. */
    ghost predicate Fresh(table: Table) {
      (key != ZERO_SIZE ==> ads == AdsBySize(table, key))
      && (key == ZERO_SIZE ==> ads == [] || ads == AdsBySize(table, key))
    }
  }

  ghost function CacheAfter(table: Table, keys: seq<Key>): Cache {
    if keys == [] then Cache(ZERO_SIZE, [])
    else CacheAfter(table, keys[..|keys| - 1]).Lookup(table, keys[|keys| - 1])
  }

  /** The cached ads are those of the cached key after every series of requests, if and only if
  the table has no ads of zero size. */
  lemma CacheIsExactIff(table: Table)
    ensures AdsBySize(table, ZERO_SIZE) == [] <==>
      forall keys :: CacheAfter(table, keys).ads == AdsBySize(table, CacheAfter(table, keys).key)
  {
    if AdsBySize(table, ZERO_SIZE) == [] {
      forall keys ensures CacheAfter(table, keys).ads == AdsBySize(table, CacheAfter(table, keys).key) {
        CacheIsExact(table, keys);
      }
    } else {
      assert CacheAfter(table, []) == Cache(ZERO_SIZE, []);
    }
  }

  lemma {:induction false} CacheIsExact(table: Table, keys: seq<Key>)
    requires AdsBySize(table, ZERO_SIZE) == []
    ensures CacheAfter(table, keys).ads == AdsBySize(table, CacheAfter(table, keys).key)
  {
    if keys != [] {
      CacheIsExact(table, keys[..|keys| - 1]);
    }
  }

  /** The thread-local variables of a worker. */
  class Processor {
    const table: Table
    var bids: seq<Bid>
    var keywords: seq<string>
    var output: Reply
    var sortCache: Cache     // adVector and prevKey of processRequestSort
    var noSortCache: Cache   // adVector and prevKey of processRequestNoSort

    ghost predicate Valid()
      reads this
    {
      SortedTable(table) && sortCache.Fresh(table) && noSortCache.Fresh(table)
    }

    constructor (table: Table)
      requires SortedTable(table)
      ensures Valid() && this.table == table
    {
      this.table := table;
      bids, keywords, output := [], [], Unknown;
      sortCache, noSortCache := Cache(ZERO_SIZE, []), Cache(ZERO_SIZE, []);
    }

    /** `parseKeywords` and `breakKeywords` */
    method ParseKeywords(request: string, start: string) returns (found: bool)
      requires '&' !in start && keywords == []
      modifies this`keywords
      ensures found == KeywordText(request, start).Some?
      ensures keywords == if found then SortKeywords(Utility.Rows(KeywordText(request, start).value, '+', 0)) else []
    {
      hide SortKeywords, KeywordText, Utility.Rows;
      var text := KeywordText(request, start);
      if text.None? {
        return false;
      }
      var rows := Utility.Split(text.value, keywords, '+', 0);
      assert rows == Utility.Rows(text.value, '+', 0);
      keywords := SortKeywords(rows);
      return true;
    }

    /** `Transaction::init` */
    method Parse(key: Key, input: string) returns (id: string, request: string, invalid: bool)
      modifies this`bids, this`keywords
      ensures bids == [] && Sorted(keywords) && invalid == (key == ZERO_SIZE)
      ensures var parts := SplitId(input);
        if key == ZERO_SIZE || parts.None? then id == "" && request == "" && keywords == []
        else (id, request) == parts.value && keywords == KeywordsOf(request)
    {
      hide SortKeywords, KeywordText, Utility.Rows;
      bids, keywords := [], [];
      id, request, invalid := "", "", key == ZERO_SIZE;
      if invalid {
        return;
      }
      var pos := Utility.FindChar(input, ']', 0);
      if pos.Some? && input[0] == '[' {
        id, request := input[..pos.value + 1], input[pos.value + 1..];
        var found := ParseKeywords(request, START_KEYWORDS1);
        if !found {
          found := ParseKeywords(request, START_KEYWORDS2);
        }
        KeywordsSorted(request);
      }
    }

    /** `matchAds` */
    method MatchAds(ads: seq<Ad>)
      requires bids == [] && Sorted(keywords) && SortedAds(ads)
      modifies this`bids
      ensures bids == Matches(ads, keywords)
    {
      for i := 0 to |ads|
        invariant bids == Matches(ads[..i], keywords)
      {
        assert ads[..i + 1][..i] == ads[..i];
        bids := SetIntersection(ads[i].bids, keywords, bids);
      }
      assert ads[..|ads|] == ads;
    }

    /** `printDiagnostics`, or the one-line reply. */
    method Print(id: string, key: Key, request: string, invalid: bool, diagnostics: bool)
      requires invalid ==> bids == []
      modifies this`output
      ensures output == ReplyFor(id, key, request, keywords, bids, diagnostics)
    {
      var index := 0;
      if bids != [] {
        index := FindWinningBid(bids);
        FirstMaxIsUnique(Truncated(bids), index, FirstMax(Truncated(bids)));
      }
      if diagnostics {
        var ending := if bids == [] then EmptyEnding else if invalid then InvalidEnding else WinnerEnding(bids[index]);
        output := Report(id, key, request, keywords, bids, ending);
      } else if bids == [] {
        output := NoMatch(id);
      } else {
        output := Winner(id, bids[index].adId, bids[index].money);
      }
    }

    /** `processRequestSort`: the key comes with the request. */
    method ProcessRequestSort(key: Key, input: string, diagnostics: bool)
      requires Valid()
      modifies this
      ensures Valid() && output == ReplyOf(table, key, input, diagnostics)
    {
      hide Matches, KeywordsOf, ReplyFor;
      var id, request, invalid := Parse(key, input);
      if input == "" {
        output := Unknown;
        return;
      }
      sortCache := sortCache.Lookup(table, key);
      CachedMatches(table, sortCache, keywords);
      MatchAds(sortCache.ads);
      Print(id, key, request, invalid, diagnostics);
    }

    /** `processRequestNoSort`: the key is computed again for the transaction. */
    method ProcessRequestNoSort(keyOf: string -> Key, key: Key, input: string, diagnostics: bool)
      requires Valid() && key == keyOf(input)
      modifies this
      ensures Valid() && output == ReplyOf(table, key, input, diagnostics)
    {
      hide Matches, KeywordsOf, ReplyFor;
      var transactionKey := keyOf(input);
      var id, request, invalid := Parse(transactionKey, input);
      if input == "" {
        output := Unknown;
        return;
      }
      noSortCache := noSortCache.Lookup(table, key);
      CachedMatches(table, noSortCache, keywords);
      MatchAds(noSortCache.ads);
      Print(id, transactionKey, request, invalid, diagnostics);
    }
  }

  lemma KeywordsSorted(request: string)
    ensures Sorted(KeywordsOf(request))
  {
    hide SortKeywords, KeywordText;
    var first := KeywordText(request, START_KEYWORDS1);
    var text := if first.Some? then first else KeywordText(request, START_KEYWORDS2);
    if text.Some? {
      SortKeywordsSorted(Utility.Rows(text.value, '+', 0));
    }
  }

  /** A stale cache is harmless: the zero size comes with no keywords. */
  lemma CachedMatches(table: Table, cache: Cache, keywords: seq<string>)
    requires SortedTable(table) && cache.Fresh(table)
    ensures SortedAds(cache.ads)
    ensures cache.key != ZERO_SIZE ==> Matches(cache.ads, keywords) == Matches(AdsBySize(table, cache.key), keywords)
    ensures Matches(cache.ads, []) == []
  {
    NoKeywordsMatchNothing(cache.ads);
  }

  /** A batch, its requests taken by the workers in any order, each worker with the cache it
  happens to have: every scheduled slot gets the reply of a direct lookup. Sorted processing and
  unsorted processing give the same responses. */
  method ProcessBatch(workers: seq<Processor>, table: Table, keyOf: string -> Key, inputs: seq<string>,
                      schedule: seq<(nat, nat)>, sortInput: bool, diagnostics: bool) returns (response: seq<Reply>)
    requires forall w :: 0 <= w < |workers| ==> workers[w].Valid() && workers[w].table == table
    requires forall k :: 0 <= k < |schedule| ==> schedule[k].0 < |workers| && schedule[k].1 < |inputs|
    modifies workers
    ensures |response| == |inputs|
    ensures forall k :: 0 <= k < |schedule| ==>
      response[schedule[k].1] == ReplyOf(table, keyOf(inputs[schedule[k].1]), inputs[schedule[k].1], diagnostics)
  {
    hide ReplyOf;
    response := seq(|inputs|, _ => Unknown);
    for k := 0 to |schedule|
      invariant |response| == |inputs|
      invariant forall w :: 0 <= w < |workers| ==> workers[w].Valid()
      invariant forall m :: 0 <= m < k ==>
        response[schedule[m].1] == ReplyOf(table, keyOf(inputs[schedule[m].1]), inputs[schedule[m].1], diagnostics)
    {
      var (w, i) := schedule[k];
      var key := keyOf(inputs[i]);
      if sortInput {
        workers[w].ProcessRequestSort(key, inputs[i], diagnostics);
      } else {
        workers[w].ProcessRequestNoSort(keyOf, key, inputs[i], diagnostics);
      }
      response := response[i := workers[w].output];
    }
  }
}
