/**
 * Playing cards (`src/misc/cards.rs`): ranks and suits with their one-letter
 * names, cards written as two letters and ordered by rank alone, and a deck
 * that keeps its cards both in one list and bucketed by suit.
 */
module Cards {
  import Sorting
  import opened Wrappers

  datatype CardRank = Two | Three | Four | Five | Six | Seven | Eight | Nine | Ten | Jack | Queen | King | Ace

  datatype CardSuit = Clubs | Diamonds | Hearts | Spades

  /** A card: its rank, then its suit. Equality compares both. */
  datatype Card = Card(rank: CardRank, suit: CardSuit)

  datatype Ordering = Less | Equal | Greater

  /** The rank letters, lowest rank first. */
  const RankChars: string := "23456789TJQKA"

  /** The suit letters, in the order of the suits' discriminants. */
  const SuitChars: string := "CDHS"

  const AllRanks: seq<CardRank> := [Two, Three, Four, Five, Six, Seven, Eight, Nine, Ten, Jack, Queen, King, Ace]

  /** `CardSuit::all`: the four suits in declaration order. */
  const AllSuits: seq<CardSuit> := [Clubs, Diamonds, Hearts, Spades]

  /** The position of a rank in declaration order, which is what the derived `Ord` compares. */
  function RankValue(r: CardRank): (v: nat)
    ensures v < 13 && AllRanks[v] == r
  {
    match r
    case Two => 0
    case Three => 1
    case Four => 2
    case Five => 3
    case Six => 4
    case Seven => 5
    case Eight => 6
    case Nine => 7
    case Ten => 8
    case Jack => 9
    case Queen => 10
    case King => 11
    case Ace => 12
  }

  /** `suit as usize`. */
  function SuitIndex(s: CardSuit): (i: nat)
    ensures i < 4 && AllSuits[i] == s
  {
    match s
    case Clubs => 0
    case Diamonds => 1
    case Hearts => 2
    case Spades => 3
  }

  /** `From<char> for CardRank`; any other letter is unreachable in the source. */
  function RankFromChar(c: char): (r: CardRank)
    requires c in RankChars
    ensures RankToChar(r) == c
  {
    match c
    case '2' => Two
    case '3' => Three
    case '4' => Four
    case '5' => Five
    case '6' => Six
    case '7' => Seven
    case '8' => Eight
    case '9' => Nine
    case 'T' => Ten
    case 'J' => Jack
    case 'Q' => Queen
    case 'K' => King
    case 'A' => Ace
  }

  /** `From<CardRank> for char`. */
  function RankToChar(r: CardRank): char {
    match r
    case Two => '2'
    case Three => '3'
    case Four => '4'
    case Five => '5'
    case Six => '6'
    case Seven => '7'
    case Eight => '8'
    case Nine => '9'
    case Ten => 'T'
    case Jack => 'J'
    case Queen => 'Q'
    case King => 'K'
    case Ace => 'A'
  }

  /** `From<char> for CardSuit`; any other letter is unreachable in the source. */
  function SuitFromChar(c: char): CardSuit
    requires c in SuitChars
  {
    match c
    case 'C' => Clubs
    case 'D' => Diamonds
    case 'H' => Hearts
    case 'S' => Spades
  }

  /** `From<CardSuit> for char`. */
  function SuitToChar(s: CardSuit): char {
    match s
    case Clubs => 'C'
    case Diamonds => 'D'
    case Hearts => 'H'
    case Spades => 'S'
  }

  /**
   * The rank letters and the ranks are in one-to-one correspondence, and the
   * i-th letter of "23456789TJQKA" names the i-th smallest rank.
   */
  lemma RankCharsRoundTrip()
    ensures forall r: CardRank :: RankToChar(r) in RankChars && RankFromChar(RankToChar(r)) == r
    ensures forall c :: c in RankChars ==> RankToChar(RankFromChar(c)) == c
    ensures forall i :: 0 <= i < |RankChars| ==> RankValue(RankFromChar(RankChars[i])) == i
  {
    forall c | c in RankChars
      ensures RankToChar(RankFromChar(c)) == c
    {
    }
  }

  /** The suit letters and the suits are in one-to-one correspondence, in discriminant order. */
  lemma SuitCharsRoundTrip()
    ensures forall s: CardSuit :: SuitToChar(s) in SuitChars && SuitFromChar(SuitToChar(s)) == s
    ensures forall c :: c in SuitChars ==> SuitToChar(SuitFromChar(c)) == c
    ensures forall i :: 0 <= i < |SuitChars| ==> SuitIndex(SuitFromChar(SuitChars[i])) == i
  {
  }

  /** `CardSuit::all`: every suit exactly once, in discriminant order. */
  lemma AllSuitsOnce()
    ensures |AllSuits| == 4
    ensures forall s: CardSuit :: s in AllSuits
    ensures forall i :: 0 <= i < |AllSuits| ==> SuitIndex(AllSuits[i]) == i
  {
    forall s: CardSuit
      ensures s in AllSuits
    {
      assert AllSuits[SuitIndex(s)] == s;
    }
  }

  /** `CardSuit::filter(f)`: the suits `f` accepts, in the order of `all`. */
  function SuitsWhere(f: CardSuit -> bool): (r: seq<CardSuit>)
    ensures forall s :: s in r <==> f(s)
    ensures forall i, j :: 0 <= i < j < |r| ==> SuitIndex(r[i]) < SuitIndex(r[j])
  {
    SuitsWhereFrom(f, 0)
  }

  function SuitsWhereFrom(f: CardSuit -> bool, i: nat): (r: seq<CardSuit>)
    requires i <= 4
    ensures forall s :: s in r <==> SuitIndex(s) >= i && f(s)
    ensures forall k :: 0 <= k < |r| ==> SuitIndex(r[k]) >= i
    ensures forall k, l :: 0 <= k < l < |r| ==> SuitIndex(r[k]) < SuitIndex(r[l])
    decreases 4 - i
  {
    if i == 4 then []
    else
      var rest := SuitsWhereFrom(f, i + 1);
      if f(AllSuits[i]) then [AllSuits[i]] + rest else rest
  }

  /** `Display for Card`: the rank letter followed by the suit letter. */
  function CardToString(c: Card): string {
    [RankToChar(c.rank), SuitToChar(c.suit)]
  }

  /**
   * `From<String> for Card`. The source asserts a length of two and reaches
   * `unreachable!` on a letter that names no rank or suit.
   */
  function CardFromString(s: string): (c: Card)
    requires |s| == 2 && s[0] in RankChars && s[1] in SuitChars
    ensures CardToString(c) == s
  {
    assert s == [s[0], s[1]];
    Card(RankFromChar(s[0]), SuitFromChar(s[1]))
  }

  /** Displaying a card and reading it back gives the card, and the other way round. */
  lemma CardStringRoundTrip()
    ensures forall c: Card ::
      var s := CardToString(c); |s| == 2 && s[0] in RankChars && s[1] in SuitChars && CardFromString(s) == c
    ensures forall s: string :: |s| == 2 && s[0] in RankChars && s[1] in SuitChars ==> CardToString(CardFromString(s)) == s
  {
    RankCharsRoundTrip();
    SuitCharsRoundTrip();
    forall s: string | |s| == 2 && s[0] in RankChars && s[1] in SuitChars
      ensures CardToString(CardFromString(s)) == s
    {
      assert CardToString(CardFromString(s)) == [s[0], s[1]];
    }
  }

  /** `Ord for Card`: compares the ranks and nothing else. */
  function Cmp(a: Card, b: Card): Ordering {
    if RankValue(a.rank) < RankValue(b.rank) then Less
    else if RankValue(a.rank) == RankValue(b.rank) then Equal
    else Greater
  }

  /** The sort key the standard sort uses through `Ord`. */
  function CardKey(c: Card): int {
    RankValue(c.rank)
  }

  /**
   * The order is a total order on ranks that ignores suits: two cards compare
   * `Equal` exactly when their ranks agree, whereas `==` also compares suits.
   */
  lemma CmpByRankOnly(a: Card, b: Card)
    ensures Cmp(a, b) == Equal <==> a.rank == b.rank
    ensures Cmp(a, b) == Less <==> Cmp(b, a) == Greater
    ensures Cmp(a, b) == Less <==> CardKey(a) < CardKey(b)
    ensures Cmp(a, Card(a.rank, Spades)) == Equal
  {
  }

  /** The queens of hearts and of spades are equal in the order but different cards. */
  lemma EqualRankDifferentCards()
    ensures Cmp(Card(Queen, Hearts), Card(Queen, Spades)) == Equal
    ensures Card(Queen, Hearts) != Card(Queen, Spades)
  {
  }

  /** The cards of `s` whose suit is `suit`, in their order in `s`. */
  function WithSuit(s: seq<Card>, suit: CardSuit): seq<Card> {
    if |s| == 0 then []
    else WithSuit(s[..|s| - 1], suit) + (if s[|s| - 1].suit == suit then [s[|s| - 1]] else [])
  }

  lemma WithSuitAppend(s: seq<Card>, y: Card, suit: CardSuit)
    ensures WithSuit(s + [y], suit) == WithSuit(s, suit) + (if y.suit == suit then [y] else [])
  {
    assert (s + [y])[..|s + [y]| - 1] == s;
  }

  lemma {:induction false} WithSuitConcat(a: seq<Card>, b: seq<Card>, suit: CardSuit)
    ensures WithSuit(a + b, suit) == WithSuit(a, suit) + WithSuit(b, suit)
    decreases |b|
  {
    if |b| > 0 {
      var front := b[..|b| - 1];
      var last := b[|b| - 1];
      assert b == front + [last];
      assert a + b == (a + front) + [last];
      WithSuitConcat(a, front, suit);
      WithSuitAppend(a + front, last, suit);
      WithSuitAppend(front, last, suit);
    } else {
      assert a + b == a;
    }
  }

  lemma {:induction false} WithSuitMembers(s: seq<Card>, suit: CardSuit)
    ensures forall y :: y in WithSuit(s, suit) ==> y in s && y.suit == suit
    decreases |s|
  {
    if |s| > 0 {
      WithSuitMembers(s[..|s| - 1], suit);
      assert s == s[..|s| - 1] + [s[|s| - 1]];
    }
  }

  /** The four suit buckets of `s` between them hold all of its cards. */
  lemma {:induction false} BucketSizes(s: seq<Card>)
    ensures |WithSuit(s, Clubs)| + |WithSuit(s, Diamonds)| + |WithSuit(s, Hearts)| + |WithSuit(s, Spades)| == |s|
    decreases |s|
  {
    if |s| > 0 {
      BucketSizes(s[..|s| - 1]);
    }
  }

  /** Buckets `bs` hold, suit by suit, the cards of `cs` in order. */
  ghost predicate Buckets(cs: seq<Card>, bs: seq<seq<Card>>) {
    |bs| == 4 && forall s: CardSuit :: bs[SuitIndex(s)] == WithSuit(cs, s)
  }

  /** Pushing `y` onto both the list and the bucket of its suit keeps them in step. */
  lemma PushKeepsBuckets(cs: seq<Card>, bs: seq<seq<Card>>, y: Card)
    requires Buckets(cs, bs)
    ensures Buckets(cs + [y], bs[SuitIndex(y.suit) := bs[SuitIndex(y.suit)] + [y]])
  {
    var bs' := bs[SuitIndex(y.suit) := bs[SuitIndex(y.suit)] + [y]];
    forall s: CardSuit
      ensures bs'[SuitIndex(s)] == WithSuit(cs + [y], s)
    {
      WithSuitAppend(cs, y, s);
    }
  }

  /** The thirteen cards of one suit, lowest rank first. */
  function SuitRow(suit: CardSuit): seq<Card> {
    seq(|AllRanks|, i requires 0 <= i < |AllRanks| => Card(AllRanks[i], suit))
  }

  /** The first `n` suits' rows, one after the other. */
  function DeckOf(n: nat): seq<Card>
    requires n <= 4
  {
    if n == 0 then [] else DeckOf(n - 1) + SuitRow(AllSuits[n - 1])
  }

  /** The order in which `CardDeck::new` lays the cards out: suit by suit, rank by rank. */
  function FullDeck(): seq<Card> {
    DeckOf(4)
  }

  /** Row `t` holds the thirteen ranks of suit `t`, each once, lowest first. */
  lemma SuitRowFacts(t: CardSuit)
    ensures |SuitRow(t)| == 13
    ensures forall i :: 0 <= i < 13 ==> SuitRow(t)[i].suit == t && RankValue(SuitRow(t)[i].rank) == i
    ensures forall c: Card :: c in SuitRow(t) <==> c.suit == t
  {
    assert forall i :: 0 <= i < 13 ==> RankValue(AllRanks[i]) == i;
    forall c: Card | c.suit == t
      ensures c in SuitRow(t)
    {
      assert SuitRow(t)[RankValue(c.rank)] == c;
    }
  }

  lemma {:induction false} WithSuitOfRow(t: CardSuit, suit: CardSuit, k: nat)
    requires k <= |SuitRow(t)|
    ensures WithSuit(SuitRow(t)[..k], suit) == if t == suit then SuitRow(t)[..k] else []
  {
    if k > 0 {
      WithSuitOfRow(t, suit, k - 1);
      assert SuitRow(t)[..k] == SuitRow(t)[..k - 1] + [SuitRow(t)[k - 1]];
      WithSuitAppend(SuitRow(t)[..k - 1], SuitRow(t)[k - 1], suit);
    }
  }

  lemma {:induction false} DeckOfMembers(n: nat)
    requires n <= 4
    ensures |DeckOf(n)| == 13 * n
    ensures forall c: Card :: c in DeckOf(n) <==> SuitIndex(c.suit) < n
  {
    if n > 0 {
      DeckOfMembers(n - 1);
      SuitRowFacts(AllSuits[n - 1]);
    }
  }

  lemma {:induction false} DeckOfBucket(n: nat, s: CardSuit)
    requires n <= 4
    ensures WithSuit(DeckOf(n), s) == if SuitIndex(s) < n then SuitRow(s) else []
  {
    if n > 0 {
      DeckOfBucket(n - 1, s);
      var t := AllSuits[n - 1];
      var front := DeckOf(n - 1);
      var row := SuitRow(t);
      assert |row| == 13 && row[..13] == row;
      WithSuitConcat(front, row, s);
      WithSuitOfRow(t, s, 13);
      if t == s {
        assert SuitIndex(s) == n - 1;
        assert WithSuit(front, s) == [];
      } else {
        assert SuitIndex(t) == n - 1;
        assert WithSuit(row, s) == [];
      }
    }
  }

  /** No card occurs twice in `s`. */
  ghost predicate NoRepeats(s: seq<Card>) {
    forall i, j :: 0 <= i < j < |s| ==> s[i] != s[j]
  }

  lemma {:induction false} DeckOfNoRepeats(n: nat)
    requires n <= 4
    ensures NoRepeats(DeckOf(n))
  {
    if n > 0 {
      DeckOfNoRepeats(n - 1);
      DeckOfMembers(n - 1);
      var front := DeckOf(n - 1);
      var row := SuitRow(AllSuits[n - 1]);
      SuitRowFacts(AllSuits[n - 1]);
      forall i, j | 0 <= i < j < |front + row|
        ensures (front + row)[i] != (front + row)[j]
      {
        if j >= |front| && i < |front| {
          assert front[i] in front;
        } else if i >= |front| {
          assert RankValue(row[i - |front|].rank) != RankValue(row[j - |front|].rank);
        }
      }
    }
  }

  /** A new deck has 52 cards, every card exactly once, and thirteen cards in each suit. */
  lemma FullDeckFacts()
    ensures |FullDeck()| == 52
    ensures forall c: Card :: c in FullDeck()
    ensures NoRepeats(FullDeck())
    ensures forall s: CardSuit :: WithSuit(FullDeck(), s) == SuitRow(s) && |WithSuit(FullDeck(), s)| == 13
  {
    DeckOfMembers(4);
    DeckOfNoRepeats(4);
    forall s: CardSuit
      ensures WithSuit(FullDeck(), s) == SuitRow(s) && |SuitRow(s)| == 13
    {
      DeckOfBucket(4, s);
      SuitRowFacts(s);
    }
  }

  /** Inserting after every key that is not greater: `x` goes last when nothing exceeds it. */
  lemma InsertLast(x: Card, t: seq<Card>)
    requires forall y :: y in t ==> CardKey(y) <= CardKey(x)
    ensures Sorting.InsertByKey(x, t, CardKey) == t + [x]
  {
    if |t| > 0 {
      assert t[|t| - 1] in t;
    }
  }

  /** In a sequence sorted by rank, no card outranks the last one. */
  lemma SortedLastIsMax(s: seq<Card>)
    requires |s| > 0 && Sorting.SortedBy(s, CardKey)
    ensures forall y :: y in s ==> CardKey(y) <= CardKey(s[|s| - 1])
  {
    forall y | y in s
      ensures CardKey(y) <= CardKey(s[|s| - 1])
    {
      var k :| 0 <= k < |s| && s[k] == y;
      if k < |s| - 1 {
        assert CardKey(s[k]) <= CardKey(s[|s| - 1]);
      }
    }
  }

  /** The case of `InsertWithSuit` where `x` goes last. */
  lemma InsertWithSuitAtEnd(x: Card, s: seq<Card>, suit: CardSuit)
    requires Sorting.SortedBy(s, CardKey)
    requires |s| == 0 || CardKey(s[|s| - 1]) <= CardKey(x)
    ensures WithSuit(Sorting.InsertByKey(x, s, CardKey), suit)
         == if x.suit == suit then Sorting.InsertByKey(x, WithSuit(s, suit), CardKey) else WithSuit(s, suit)
  {
    assert Sorting.InsertByKey(x, s, CardKey) == s + [x];
    WithSuitAppend(s, x, suit);
    if x.suit == suit {
      WithSuitMembers(s, suit);
      if |s| > 0 {
        SortedLastIsMax(s);
      }
      InsertLast(x, WithSuit(s, suit));
    }
  }

  /** Inserting by rank and then taking a suit's cards is taking them first and then inserting. */
  lemma {:induction false} InsertWithSuit(x: Card, s: seq<Card>, suit: CardSuit)
    requires Sorting.SortedBy(s, CardKey)
    ensures WithSuit(Sorting.InsertByKey(x, s, CardKey), suit)
         == if x.suit == suit then Sorting.InsertByKey(x, WithSuit(s, suit), CardKey) else WithSuit(s, suit)
    decreases |s|
  {
    if |s| == 0 || CardKey(s[|s| - 1]) <= CardKey(x) {
      InsertWithSuitAtEnd(x, s, suit);
    } else {
      var front := s[..|s| - 1];
      var last := s[|s| - 1];
      assert s == front + [last];
      assert Sorting.InsertByKey(x, s, CardKey) == Sorting.InsertByKey(x, front, CardKey) + [last];
      InsertWithSuit(x, front, suit);
      WithSuitAppend(Sorting.InsertByKey(x, front, CardKey), last, suit);
      var t := WithSuit(front, suit);
      var u := WithSuit(Sorting.InsertByKey(x, front, CardKey), suit);
      if last.suit == suit {
        assert WithSuit(s, suit) == t + [last];
        assert WithSuit(Sorting.InsertByKey(x, s, CardKey), suit) == u + [last];
        if x.suit == suit {
          assert (t + [last])[..|t|] == t;
          assert Sorting.InsertByKey(x, t + [last], CardKey) == Sorting.InsertByKey(x, t, CardKey) + [last];
        }
      } else {
        assert WithSuit(s, suit) == t;
        assert WithSuit(Sorting.InsertByKey(x, s, CardKey), suit) == u;
      }
    }
  }

  /** A stable sort by rank commutes with taking one suit's cards. */
  lemma {:induction false} SortWithSuit(s: seq<Card>, suit: CardSuit)
    ensures WithSuit(Sorting.SortByKeySpec(s, CardKey), suit) == Sorting.SortByKeySpec(WithSuit(s, suit), CardKey)
    decreases |s|
  {
    if |s| > 0 {
      var front := s[..|s| - 1];
      var last := s[|s| - 1];
      var sorted := Sorting.SortByKeySpec(front, CardKey);
      assert Sorting.SortByKeySpec(s, CardKey) == Sorting.InsertByKey(last, sorted, CardKey);
      SortWithSuit(front, suit);
      Sorting.SortByKeySpecCorrect(front, CardKey);
      InsertWithSuit(last, sorted, suit);
      var t := WithSuit(front, suit);
      if last.suit == suit {
        assert WithSuit(s, suit) == t + [last];
        assert (t + [last])[..|t|] == t;
        assert Sorting.SortByKeySpec(t + [last], CardKey) == Sorting.InsertByKey(last, Sorting.SortByKeySpec(t, CardKey), CardKey);
      } else {
        assert WithSuit(s, suit) == t;
      }
    }
  }

  /** The inner loop of `CardDeck::new`: push one suit's thirteen cards, rank by rank. */
  method PushSuitRow(cs: seq<Card>, bs: seq<seq<Card>>, suit: CardSuit) returns (cs': seq<Card>, bs': seq<seq<Card>>)
    requires Buckets(cs, bs)
    ensures cs' == cs + SuitRow(suit) && Buckets(cs', bs')
  {
    cs', bs' := cs, bs;
    for ri := 0 to 13
      invariant cs' == cs + SuitRow(suit)[..ri]
      invariant Buckets(cs', bs')
    {
      var card := Card(AllRanks[ri], suit);
      PushKeepsBuckets(cs', bs', card);
      assert SuitRow(suit)[..ri + 1] == SuitRow(suit)[..ri] + [card];
      cs' := cs' + [card];
      bs' := bs'[SuitIndex(suit) := bs'[SuitIndex(suit)] + [card]];
    }
    assert SuitRow(suit)[..13] == SuitRow(suit);
  }

  /** Sorting a vector of cards in place by rank, as `sort_by_key` does. */
  method SortCards(cs: seq<Card>) returns (r: seq<Card>)
    ensures r == Sorting.SortByKeySpec(cs, CardKey)
  {
    var a := new Card[|cs|](i requires 0 <= i < |cs| => cs[i]);
    assert a[..] == cs;
    Sorting.SortByKey(a, CardKey);
    r := a[..];
  }

  /** Sorting the deck and each bucket by rank keeps the buckets in step with the deck. */
  lemma SortedBuckets(cs: seq<Card>, bs: seq<seq<Card>>, sorted: seq<seq<Card>>)
    requires Buckets(cs, bs) && |sorted| == 4
    requires forall j :: 0 <= j < 4 ==> sorted[j] == Sorting.SortByKeySpec(bs[j], CardKey)
    ensures Buckets(Sorting.SortByKeySpec(cs, CardKey), sorted)
  {
    forall s: CardSuit
      ensures sorted[SuitIndex(s)] == WithSuit(Sorting.SortByKeySpec(cs, CardKey), s)
    {
      SortWithSuit(cs, s);
    }
  }

  /** `CardDeck`: the cards, the trump suit if any, and the cards again bucketed by suit. */
  class CardDeck {
    var cards: seq<Card>
    var trump: Option<CardSuit>
    var bySuit: seq<seq<Card>>

    /** The buckets hold, suit by suit, the deck's cards in deck order. */
    ghost predicate Valid()
      reads this
    {
      Buckets(cards, bySuit)
    }

    /** `CardDeck::new`: all 52 cards, suit by suit and rank by rank, and no trump. */
    constructor New()
      ensures Valid() && cards == FullDeck() && trump == None
    {
      var cs: seq<Card> := [];
      var bs: seq<seq<Card>> := [[], [], [], []];
      for si := 0 to 4
        invariant cs == DeckOf(si)
        invariant Buckets(cs, bs)
      {
        cs, bs := PushSuitRow(cs, bs, AllSuits[si]);
      }
      cards := cs;
      trump := None;
      bySuit := bs;
    }

    /** `CardDeck::from_vec`: the given cards and trump, bucketed by suit. */
    constructor FromVec(cs: seq<Card>, t: Option<CardSuit>)
      ensures Valid() && cards == cs && trump == t
    {
      var bs: seq<seq<Card>> := [[], [], [], []];
      for i := 0 to |cs|
        invariant Buckets(cs[..i], bs)
      {
        PushKeepsBuckets(cs[..i], bs, cs[i]);
        assert cs[..i + 1] == cs[..i] + [cs[i]];
        bs := bs[SuitIndex(cs[i].suit) := bs[SuitIndex(cs[i].suit)] + [cs[i]]];
      }
      assert cs[..|cs|] == cs;
      cards := cs;
      trump := t;
      bySuit := bs;
    }

    /** The struct literal `Self { cards, trump, by_suit }`. */
    constructor Make(cs: seq<Card>, t: Option<CardSuit>, bs: seq<seq<Card>>)
      ensures cards == cs && trump == t && bySuit == bs
    {
      cards := cs;
      trump := t;
      bySuit := bs;
    }

    /**
     * `CardDeck::sorted`: the cards and every bucket sorted stably by rank, the
     * trump kept. The buckets still hold the suits' cards in deck order.
     */
    method Sorted() returns (d: CardDeck)
      requires Valid()
      ensures fresh(d) && d.Valid() && d.trump == trump
      ensures d.cards == Sorting.SortByKeySpec(cards, CardKey)
      ensures forall s: CardSuit :: d.bySuit[SuitIndex(s)] == Sorting.SortByKeySpec(bySuit[SuitIndex(s)], CardKey)
    {
      var sortedCards := SortCards(cards);
      var bs := bySuit;
      for k := 0 to 4
        invariant |bs| == 4
        invariant forall j :: k <= j < 4 ==> bs[j] == bySuit[j]
        invariant forall j :: 0 <= j < k ==> bs[j] == Sorting.SortByKeySpec(bySuit[j], CardKey)
      {
        var b := SortCards(bs[k]);
        bs := bs[k := b];
      }
      d := new CardDeck.Make(sortedCards, trump, bs);
      SortedBuckets(cards, bySuit, bs);
    }

    /** `CardDeck::set_trump`: afterwards the given suit, and only it, is trump. */
    method SetTrump(t: CardSuit)
      modifies this
      ensures trump == Some(t) && cards == old(cards) && bySuit == old(bySuit)
      ensures forall s :: IsTrump(s) <==> s == t
    {
      trump := Some(t);
    }

    /** `CardDeck::is_trump`. */
    predicate IsTrump(s: CardSuit)
      reads this
    {
      trump == Some(s)
    }

    /** `CardDeck::cards_by_suit`: the deck's cards of one suit, in deck order. */
    function CardsBySuit(s: CardSuit): (r: seq<Card>)
      requires Valid()
      reads this
      ensures r == WithSuit(cards, s)
      ensures forall c :: c in r ==> c in cards && c.suit == s
    {
      WithSuitMembers(cards, s);
      bySuit[SuitIndex(s)]
    }
  }
}
