/**
 * The sorted token list behind WORDS.TOK (src/agi.ts:36-116): tokens are
 * ordered by JavaScript's `<` on their words and looked up by binary
 * search. Upsert and delete keep the order and never add a second token
 * for a word; only the constructor can bring in repeated words.
 */
module WordOrder {
  import opened Bytes

  /** A dictionary entry: a word and its synonym-group id. */
  datatype Token = Token(word: Text, id: int)

  /** JavaScript's `a < b` on strings: lexicographic order on code units. */
  predicate TextLess(a: Text, b: Text)
  {
    |b| > 0 && (|a| == 0 || a[0] < b[0] || (a[0] == b[0] && TextLess(a[1..], b[1..])))
  }

  lemma {:induction false} TextLessIrreflexive(a: Text)
    ensures !TextLess(a, a)
  {
    if |a| > 0 {
      TextLessIrreflexive(a[1..]);
    }
  }

  lemma {:induction false} TextLessTransitive(a: Text, b: Text, c: Text)
    requires TextLess(a, b) && TextLess(b, c)
    ensures TextLess(a, c)
  {
    if |a| > 0 && a[0] == b[0] && b[0] == c[0] {
      TextLessTransitive(a[1..], b[1..], c[1..]);
    }
  }

  lemma {:induction false} TextLessTotal(a: Text, b: Text)
    ensures a == b || TextLess(a, b) || TextLess(b, a)
  {
    if |a| > 0 && |b| > 0 && a[0] == b[0] {
      TextLessTotal(a[1..], b[1..]);
      assert a == [a[0]] + a[1..] && b == [b[0]] + b[1..];
    }
  }

  lemma {:induction false} TextLessAsymmetric(a: Text, b: Text)
    ensures !(TextLess(a, b) && TextLess(b, a))
  {
    if |a| > 0 && |b| > 0 && a[0] == b[0] {
      TextLessAsymmetric(a[1..], b[1..]);
    }
  }

  /** Length of the longest common prefix of a and b. */
  function Lcp(a: Text, b: Text): (n: nat)
    ensures n <= |a| && n <= |b|
  {
    LcpFrom(a, b, 0)
  }

  /** The longest common prefix, given that the first i units agree. */
  function LcpFrom(a: Text, b: Text, i: nat): (n: nat)
    requires i <= |a| && i <= |b|
    ensures i <= n <= |a| && n <= |b|
    decreases |a| - i
  {
    if i == |a| || i == |b| || a[i] != b[i] then i else LcpFrom(a, b, i + 1)
  }

  lemma {:induction false} LcpFromPrefix(a: Text, b: Text, i: nat)
    requires i <= |a| && i <= |b| && a[..i] == b[..i]
    ensures var n := LcpFrom(a, b, i);
      a[..n] == b[..n] && (n < |a| && n < |b| ==> a[n] != b[n])
    decreases |a| - i
  {
    if i < |a| && i < |b| && a[i] == b[i] {
      assert a[..i + 1] == a[..i] + [a[i]] && b[..i + 1] == b[..i] + [b[i]];
      LcpFromPrefix(a, b, i + 1);
    }
  }

  /** The first Lcp(a, b) units agree, and the next ones, if both exist, differ. */
  lemma LcpPrefix(a: Text, b: Text)
    ensures var n := Lcp(a, b);
      a[..n] == b[..n] && (n < |a| && n < |b| ==> a[n] != b[n])
  {
    LcpFromPrefix(a, b, 0);
  }

  /** Any common prefix that stops at a mismatch or at the end of a word is the longest one. */
  lemma LcpUnique(a: Text, b: Text, n: nat)
    requires n <= |a| && n <= |b| && a[..n] == b[..n]
    requires n == |a| || n == |b| || a[n] != b[n]
    ensures n == Lcp(a, b)
  {
    var m := Lcp(a, b);
    LcpPrefix(a, b);
    assert forall k :: 0 <= k < n ==> a[k] == b[k] by {
      forall k | 0 <= k < n
        ensures a[k] == b[k]
      {
        assert a[..n][k] == b[..n][k];
      }
    }
    assert forall k :: 0 <= k < m ==> a[k] == b[k] by {
      forall k | 0 <= k < m
        ensures a[k] == b[k]
      {
        assert a[..m][k] == b[..m][k];
      }
    }
  }

  /**
   * The string order decided at the first difference: a is below b when a
   * is a proper prefix of b or has the smaller code unit where they first
   * differ.
   */
  lemma {:induction false} TextLessByLcp(a: Text, b: Text)
    ensures var n := Lcp(a, b);
      TextLess(a, b) <==> n < |b| && (n == |a| || a[n] < b[n])
  {
    if |a| > 0 && |b| > 0 && a[0] == b[0] {
      TextLessByLcp(a[1..], b[1..]);
      LcpTail(a, b);
    }
  }

  /** Past an equal first unit, the common prefix is one longer than that of the tails. */
  lemma LcpTail(a: Text, b: Text)
    requires |a| > 0 && |b| > 0 && a[0] == b[0]
    ensures Lcp(a, b) == Lcp(a[1..], b[1..]) + 1
  {
    var m := Lcp(a[1..], b[1..]);
    LcpPrefix(a[1..], b[1..]);
    assert a[..m + 1] == [a[0]] + a[1..][..m] && b[..m + 1] == [b[0]] + b[1..][..m];
    LcpUnique(a, b, m + 1);
  }

  /** `tokenComp`: -1, 1 or 0 as a's word sorts before, after or equal to b's. */
  function TokenComp(a: Token, b: Token): (r: int)
    ensures r == -1 <==> TextLess(a.word, b.word)
    ensures r == 1 <==> TextLess(b.word, a.word)
    ensures r == 0 <==> a.word == b.word
  {
    TextLessTotal(a.word, b.word);
    TextLessIrreflexive(a.word);
    TextLessAsymmetric(a.word, b.word);
    if TextLess(a.word, b.word) then -1
    else if TextLess(b.word, a.word) then 1
    else 0
  }

  /** Words strictly ascending, hence no word twice: the list the decoder builds. */
  ghost predicate StrictlySorted(ws: seq<Token>)
  {
    forall i, j {:trigger TextLess(ws[i].word, ws[j].word)} :: 0 <= i < j < |ws| ==> TextLess(ws[i].word, ws[j].word)
  }

  /**
   * Non-strict order by word, as `Array.prototype.sort(tokenComp)` leaves a
   * list: equal words may sit side by side.
   */
  ghost predicate Sorted(ws: seq<Token>)
  {
    forall i, j {:trigger TextLess(ws[i].word, ws[j].word)} :: 0 <= i < j < |ws| ==>
      ws[i].word == ws[j].word || TextLess(ws[i].word, ws[j].word)
  }

  /** Some token holds w. */
  ghost predicate Present(ws: seq<Token>, w: Text)
  {
    exists i :: 0 <= i < |ws| && ws[i].word == w
  }

  lemma SortedDistinct(ws: seq<Token>, i: int, j: int)
    requires StrictlySorted(ws) && 0 <= i < |ws| && 0 <= j < |ws| && i != j
    ensures ws[i].word != ws[j].word
  {
    if i < j {
      TextLessIrreflexive(ws[i].word);
    } else {
      TextLessIrreflexive(ws[j].word);
    }
  }

  lemma BelowUpTo(ws: seq<Token>, k: int, w: Text)
    requires Sorted(ws) && 0 <= k < |ws| && TextLess(ws[k].word, w)
    ensures forall i :: 0 <= i <= k ==> TextLess(ws[i].word, w)
  {
    forall i | 0 <= i < k
      ensures TextLess(ws[i].word, w)
    {
      if TextLess(ws[i].word, ws[k].word) {
        TextLessTransitive(ws[i].word, ws[k].word, w);
      }
    }
  }

  lemma AboveFrom(ws: seq<Token>, k: int, w: Text)
    requires Sorted(ws) && 0 <= k < |ws| && TextLess(w, ws[k].word)
    ensures forall i :: k <= i < |ws| ==> TextLess(w, ws[i].word)
  {
    forall i | k < i < |ws|
      ensures TextLess(w, ws[i].word)
    {
      if TextLess(ws[k].word, ws[i].word) {
        TextLessTransitive(w, ws[k].word, ws[i].word);
      }
    }
  }

  /**
   * The `binary-search` package's loop over the inclusive range lo..hi,
   * probing `lo + ((hi - lo) >>> 1)` and comparing the probe to the needle.
   */
  function SearchRange(ws: seq<Token>, w: Text, lo: int, hi: int): (r: int)
    requires Sorted(ws)
    requires 0 <= lo <= hi + 1 <= |ws|
    requires forall i :: 0 <= i < lo ==> TextLess(ws[i].word, w)
    requires forall i :: hi < i < |ws| ==> TextLess(w, ws[i].word)
    ensures r >= 0 ==> r < |ws| && ws[r].word == w
    ensures r < 0 ==> (-r - 1 <= |ws|
      && (forall i :: 0 <= i < -r - 1 ==> TextLess(ws[i].word, w))
      && (forall i :: -r - 1 <= i < |ws| ==> TextLess(w, ws[i].word)))
    decreases hi - lo
  {
    if lo > hi then -(lo + 1)
    else
      var mid := lo + (hi - lo) / 2;
      var c := TokenComp(ws[mid], Token(w, 0));
      if c < 0 then
        BelowUpTo(ws, mid, w);
        SearchRange(ws, w, mid + 1, hi)
      else if c > 0 then
        AboveFrom(ws, mid, w);
        SearchRange(ws, w, lo, mid - 1)
      else mid
  }

  /**
   * `bs(words, {word, id: 0}, tokenComp)`: the index holding w, or
   * `~p` = -(p + 1) where p is the position at which w would be inserted.
   */
  function Search(ws: seq<Token>, w: Text): (r: int)
    requires Sorted(ws)
    ensures r >= 0 ==> r < |ws| && ws[r].word == w
    ensures r < 0 ==> (-r - 1 <= |ws|
      && (forall i :: 0 <= i < -r - 1 ==> TextLess(ws[i].word, w))
      && (forall i :: -r - 1 <= i < |ws| ==> TextLess(w, ws[i].word)))
  {
    SearchRange(ws, w, 0, |ws| - 1)
  }

  /** Reference lookup by a linear scan: the id of the first token holding w. */
  function Lookup(ws: seq<Token>, w: Text): Option<int>
  {
    if |ws| == 0 then None
    else if ws[0].word == w then Some(ws[0].id)
    else Lookup(ws[1..], w)
  }

  lemma {:induction false} LookupAt(ws: seq<Token>, i: int, w: Text)
    requires 0 <= i < |ws| && ws[i].word == w
    requires forall j :: 0 <= j < i ==> ws[j].word != w
    ensures Lookup(ws, w) == Some(ws[i].id)
  {
    if i > 0 {
      LookupAt(ws[1..], i - 1, w);
    }
  }

  lemma {:induction false} LookupAbsent(ws: seq<Token>, w: Text)
    requires forall j :: 0 <= j < |ws| ==> ws[j].word != w
    ensures Lookup(ws, w) == None
  {
    if |ws| > 0 {
      LookupAbsent(ws[1..], w);
    }
  }

  /** The search finds w exactly when the reference lookup does, and reports the same id. */
  lemma SearchAgreesWithLookup(ws: seq<Token>, w: Text)
    requires Sorted(ws)
    ensures Search(ws, w) >= 0 <==> Lookup(ws, w).Some?
    ensures StrictlySorted(ws) && Search(ws, w) >= 0 ==> Lookup(ws, w) == Some(ws[Search(ws, w)].id)
  {
    var r := Search(ws, w);
    SearchFindsPresent(ws, w);
    LookupPresent(ws, w);
    if r >= 0 && StrictlySorted(ws) {
      forall j | 0 <= j < r
        ensures ws[j].word != w
      {
        SortedDistinct(ws, j, r);
      }
      LookupAt(ws, r, w);
    }
  }

  /** The reference lookup finds something exactly when some token holds w. */
  lemma {:induction false} LookupPresent(ws: seq<Token>, w: Text)
    ensures Lookup(ws, w).Some? <==> Present(ws, w)
  {
    if |ws| > 0 && ws[0].word != w {
      LookupPresent(ws[1..], w);
      if Present(ws[1..], w) {
        var k :| 0 <= k < |ws[1..]| && ws[1..][k].word == w;
        assert ws[k + 1].word == w;
      }
      if Present(ws, w) {
        var i :| 0 <= i < |ws| && ws[i].word == w;
        assert ws[1..][i - 1].word == w;
      }
    }
  }

  /** The list with every token for w dropped, the rest in order. */
  function Without(ws: seq<Token>, w: Text): seq<Token>
  {
    if |ws| == 0 then [] else (if ws[0].word == w then [] else [ws[0]]) + Without(ws[1..], w)
  }

  lemma {:induction false} WithoutConcat(a: seq<Token>, b: seq<Token>, w: Text)
    ensures Without(a + b, w) == Without(a, w) + Without(b, w)
  {
    if |a| > 0 {
      assert (a + b)[1..] == a[1..] + b;
      WithoutConcat(a[1..], b, w);
    } else {
      assert a + b == b;
    }
  }

  lemma {:induction false} WithoutAbsent(ws: seq<Token>, w: Text)
    requires forall j :: 0 <= j < |ws| ==> ws[j].word != w
    ensures Without(ws, w) == ws
  {
    if |ws| > 0 {
      WithoutAbsent(ws[1..], w);
    }
  }

  lemma {:induction false} LookupWithout(ws: seq<Token>, w: Text, v: Text)
    ensures Lookup(Without(ws, w), v) == if v == w then None else Lookup(ws, v)
  {
    if |ws| > 0 {
      LookupWithout(ws[1..], w, v);
      var rest := Without(ws[1..], w);
      if ws[0].word != w {
        assert Without(ws, w) == [ws[0]] + rest;
        assert ([ws[0]] + rest)[1..] == rest;
      } else {
        assert Without(ws, w) == rest;
      }
    }
  }

  /** Two lists that agree once w is dropped agree on every other word. */
  lemma LookupOthers(a: seq<Token>, b: seq<Token>, w: Text)
    requires Without(a, w) == Without(b, w)
    ensures forall v :: v != w ==> Lookup(a, v) == Lookup(b, v)
  {
    forall v | v != w
      ensures Lookup(a, v) == Lookup(b, v)
    {
      LookupWithout(a, w, v);
      LookupWithout(b, w, v);
    }
  }

  /** `setWord` on the list: overwrite the token found, else insert at the insertion point. */
  function Upsert(ws: seq<Token>, t: Token): (r: seq<Token>)
    requires Sorted(ws)
    ensures Sorted(r)
    ensures StrictlySorted(ws) ==> StrictlySorted(r)
    ensures t in r
    ensures |r| == |ws| + (if Search(ws, t.word) < 0 then 1 else 0)
  {
    var i := Search(ws, t.word);
    if i < 0 then
      var p := -i - 1;
      var r := ws[..p] + [t] + ws[p..];
      assert forall k :: 0 <= k < p ==> r[k] == ws[k];
      assert forall k :: p < k < |r| ==> r[k] == ws[k - 1];
      InsertKeepsOrder(ws, p, t, r);
      r
    else
      var r := ws[i := t];
      assert forall k :: 0 <= k < |r| ==> r[k].word == ws[k].word;
      r
  }

  lemma InsertKeepsOrder(ws: seq<Token>, p: int, t: Token, r: seq<Token>)
    requires Sorted(ws) && 0 <= p <= |ws| && |r| == |ws| + 1
    requires forall i :: 0 <= i < p ==> TextLess(ws[i].word, t.word)
    requires forall i :: p <= i < |ws| ==> TextLess(t.word, ws[i].word)
    requires forall k :: 0 <= k < p ==> r[k] == ws[k]
    requires r[p] == t
    requires forall k :: p < k < |r| ==> r[k] == ws[k - 1]
    ensures Sorted(r)
    ensures StrictlySorted(ws) ==> StrictlySorted(r)
  {
    forall i, j | 0 <= i < j < |r| && i < p < j
      ensures TextLess(r[i].word, r[j].word)
    {
      TextLessTransitive(ws[i].word, t.word, ws[j - 1].word);
    }
  }

  /** Dropping w's tokens, one more token holding w in the middle makes no difference. */
  lemma WithoutDropsOne(pre: seq<Token>, x: Token, tail: seq<Token>, w: Text)
    requires x.word == w
    ensures Without(pre + [x] + tail, w) == Without(pre + tail, w)
  {
    WithoutConcat(pre + [x], tail, w);
    WithoutConcat(pre, [x], w);
    WithoutConcat(pre, tail, w);
    assert Without([x], w) == [] + Without([], w);
  }

  /**
   * On any sorted list, repeated words included, `setWord` changes nothing
   * but tokens holding t's word: dropping those, the list is as before.
   */
  lemma WithoutUpsert(ws: seq<Token>, t: Token)
    requires Sorted(ws)
    ensures Without(Upsert(ws, t), t.word) == Without(ws, t.word)
  {
    var i := Search(ws, t.word);
    if i < 0 {
      var p := -i - 1;
      WithoutDropsOne(ws[..p], t, ws[p..], t.word);
      assert ws[..p] + ws[p..] == ws;
    } else {
      assert Upsert(ws, t) == ws[..i] + [t] + ws[i + 1..];
      assert ws == ws[..i] + [ws[i]] + ws[i + 1..];
      WithoutDropsOne(ws[..i], t, ws[i + 1..], t.word);
      WithoutDropsOne(ws[..i], ws[i], ws[i + 1..], t.word);
    }
  }

  /** The binary search finds w exactly when some token of a sorted list holds w. */
  lemma SearchFindsPresent(ws: seq<Token>, w: Text)
    requires Sorted(ws)
    ensures Search(ws, w) >= 0 <==> Present(ws, w)
  {
    var r := Search(ws, w);
    if r < 0 {
      forall i | 0 <= i < |ws|
        ensures ws[i].word != w
      {
        TextLessIrreflexive(w);
      }
    }
  }

  /** Dropping w from pre + [x] + tail, where only x holds w, leaves pre + tail. */
  lemma WithoutSplice(pre: seq<Token>, x: Token, tail: seq<Token>, w: Text)
    requires x.word == w
    requires forall j :: 0 <= j < |pre| ==> pre[j].word != w
    requires forall j :: 0 <= j < |tail| ==> tail[j].word != w
    ensures Without(pre + [x] + tail, w) == pre + tail
  {
    WithoutAbsent(pre, w);
    WithoutAbsent(tail, w);
    WithoutConcat(pre + [x], tail, w);
    WithoutConcat(pre, [x], w);
    assert Without([x], w) == [] + Without([], w);
  }

  /** Where `setWord` puts t: before it the smaller words, after it the larger ones. */
  lemma UpsertShape(ws: seq<Token>, t: Token) returns (p: nat, tail: seq<Token>, found: bool)
    requires StrictlySorted(ws)
    ensures p <= |ws|
    ensures Upsert(ws, t) == ws[..p] + [t] + tail
    ensures found ==> p < |ws| && ws[p].word == t.word && ws == ws[..p] + [ws[p]] + tail
    ensures !found ==> ws == ws[..p] + tail
    ensures forall j :: 0 <= j < p ==> ws[j].word != t.word
    ensures forall j :: 0 <= j < |tail| ==> tail[j].word != t.word
  {
    var i := Search(ws, t.word);
    found := i >= 0;
    p := if found then i else -i - 1;
    tail := if found then ws[p + 1..] else ws[p..];
    TextLessIrreflexive(t.word);
    forall j | 0 <= j < p
      ensures ws[j].word != t.word
    {
      if found {
        SortedDistinct(ws, j, i);
      }
    }
    forall j | 0 <= j < |tail|
      ensures tail[j].word != t.word
    {
      if found {
        SortedDistinct(ws, p + 1 + j, i);
      } else {
        assert tail[j] == ws[p + j];
      }
    }
    if found {
      assert ws == ws[..p] + [ws[p]] + tail;
    } else {
      assert ws == ws[..p] + tail;
    }
  }

  /**
   * After `setWord(w, id)` the list maps w to id, and apart from w's token
   * it holds the same tokens in the same order.
   */
  lemma UpsertLookup(ws: seq<Token>, t: Token)
    requires StrictlySorted(ws)
    ensures Lookup(Upsert(ws, t), t.word) == Some(t.id)
    ensures Without(Upsert(ws, t), t.word) == Without(ws, t.word)
    ensures forall v :: v != t.word ==> Lookup(Upsert(ws, t), v) == Lookup(ws, v)
  {
    var p, tail, found := UpsertShape(ws, t);
    var r := Upsert(ws, t);
    assert r[p] == t;
    assert forall j :: 0 <= j < p ==> r[j] == ws[j];
    LookupAt(r, p, t.word);
    WithoutSplice(ws[..p], t, tail, t.word);
    if found {
      WithoutSplice(ws[..p], ws[p], tail, t.word);
    } else {
      WithoutAbsent(ws[..p] + tail, t.word);
    }
    LookupOthers(r, ws, t.word);
  }

  /** Upserting a word above every word in the list appends its token. */
  lemma UpsertGreatest(ws: seq<Token>, t: Token)
    requires StrictlySorted(ws)
    requires forall j :: 0 <= j < |ws| ==> TextLess(ws[j].word, t.word)
    ensures Upsert(ws, t) == ws + [t]
  {
    TextLessIrreflexive(t.word);
    forall j | 0 <= j < |ws|
      ensures !TextLess(t.word, ws[j].word)
    {
      TextLessAsymmetric(ws[j].word, t.word);
    }
    var p := -Search(ws, t.word) - 1;
    if |ws| > 0 {
      assert !TextLess(t.word, ws[|ws| - 1].word);
    }
    assert p >= |ws|;
    assert ws[..p] == ws && ws[p..] == [];
  }

  lemma SortedPrefix(ws: seq<Token>, n: nat)
    requires StrictlySorted(ws) && n <= |ws|
    ensures StrictlySorted(ws[..n])
  {
    assert forall i :: 0 <= i < n ==> ws[..n][i] == ws[i];
  }

  /** `deleteWord` on the list: splice out the token found, if any. */
  function Remove(ws: seq<Token>, w: Text): (r: seq<Token>)
    requires Sorted(ws)
    ensures Sorted(r)
    ensures StrictlySorted(ws) ==> StrictlySorted(r)
  {
    var i := Search(ws, w);
    if i >= 0 then
      var r := ws[..i] + ws[i + 1..];
      assert forall k :: 0 <= k < |r| ==> r[k] == if k < i then ws[k] else ws[k + 1];
      r
    else ws
  }

  /**
   * On any sorted list, repeated words included, `deleteWord` drops one
   * token holding w (the one the search lands on) when there is one, and
   * leaves the list as it is otherwise.
   */
  lemma RemoveDropsOne(ws: seq<Token>, w: Text)
    requires Sorted(ws)
    ensures Present(ws, w) ==> exists i :: 0 <= i < |ws| && ws[i].word == w && Remove(ws, w) == ws[..i] + ws[i + 1..]
    ensures !Present(ws, w) ==> Remove(ws, w) == ws
  {
    SearchFindsPresent(ws, w);
    var i := Search(ws, w);
    if i >= 0 {
      assert ws[i].word == w && Remove(ws, w) == ws[..i] + ws[i + 1..];
    }
  }

  /** Where `deleteWord` cuts: around w's token when there is one. */
  lemma RemoveShape(ws: seq<Token>, w: Text) returns (found: bool)
    requires StrictlySorted(ws)
    ensures found ==> Search(ws, w) >= 0 && ws == ws[..Search(ws, w)] + [ws[Search(ws, w)]] + ws[Search(ws, w) + 1..]
    ensures found ==> forall j :: 0 <= j < |ws| && j != Search(ws, w) ==> ws[j].word != w
    ensures !found ==> Search(ws, w) < 0 && forall j :: 0 <= j < |ws| ==> ws[j].word != w
  {
    var i := Search(ws, w);
    found := i >= 0;
    TextLessIrreflexive(w);
    if found {
      forall j | 0 <= j < |ws| && j != i
        ensures ws[j].word != w
      {
        SortedDistinct(ws, j, i);
      }
      assert ws == ws[..i] + [ws[i]] + ws[i + 1..];
    }
  }

  /**
   * `deleteWord(w)` drops exactly w's token: afterwards w is absent, every
   * other word keeps its id, and an absent w leaves the list as it was.
   */
  lemma RemoveLookup(ws: seq<Token>, w: Text)
    requires StrictlySorted(ws)
    ensures Remove(ws, w) == Without(ws, w)
    ensures Lookup(Remove(ws, w), w) == None
    ensures forall v :: v != w ==> Lookup(Remove(ws, w), v) == Lookup(ws, v)
    ensures Lookup(ws, w) == None ==> Remove(ws, w) == ws
  {
    RemoveIsWithout(ws, w);
    LookupWithout(ws, w, w);
    LookupOthers(Remove(ws, w), ws, w);
    SearchAgreesWithLookup(ws, w);
  }

  /** Removing by binary search drops exactly the tokens holding w. */
  lemma RemoveIsWithout(ws: seq<Token>, w: Text)
    requires StrictlySorted(ws)
    ensures Remove(ws, w) == Without(ws, w)
  {
    var found := RemoveShape(ws, w);
    var i := Search(ws, w);
    if found {
      var pre, tail := ws[..i], ws[i + 1..];
      assert forall j :: 0 <= j < |pre| ==> pre[j] == ws[j];
      assert forall j :: 0 <= j < |tail| ==> tail[j] == ws[i + 1 + j];
      WithoutSplice(pre, ws[i], tail, w);
    } else {
      WithoutAbsent(ws, w);
    }
  }

  /** Strictly ascending integers. */
  predicate Ascending(s: seq<int>)
  {
    forall i, j :: 0 <= i < j < |s| ==> s[i] < s[j]
  }

  function InsertId(s: seq<int>, x: int): (r: seq<int>)
    requires Ascending(s)
    ensures Ascending(r)
    ensures forall y :: y in r <==> y in s || y == x
    ensures |r| > 0 && (r[0] == x || (|s| > 0 && r[0] == s[0]))
  {
    if |s| == 0 then [x]
    else if x < s[0] then [x] + s
    else if x == s[0] then s
    else
      assert s == [s[0]] + s[1..];
      [s[0]] + InsertId(s[1..], x)
  }

  /** `getUniqueIds`: the ids present, each once, in ascending order. */
  function UniqueIds(ws: seq<Token>): (r: seq<int>)
    ensures Ascending(r)
    ensures forall x :: x in r <==> exists i :: 0 <= i < |ws| && ws[i].id == x
  {
    if |ws| == 0 then []
    else
      var front := ws[..|ws| - 1];
      var r := InsertId(UniqueIds(front), ws[|ws| - 1].id);
      assert forall i :: 0 <= i < |front| ==> front[i] == ws[i];
      r
  }

  /** `getWordsById`: the words whose token carries id, in list order. */
  function WordsById(ws: seq<Token>, id: int): (r: seq<Text>)
    ensures |r| <= |ws|
    ensures forall w :: w in r <==> exists i :: 0 <= i < |ws| && ws[i].word == w && ws[i].id == id
  {
    if |ws| == 0 then []
    else
      var rest := WordsById(ws[1..], id);
      assert forall i :: 1 <= i < |ws| ==> ws[1..][i - 1] == ws[i];
      (if ws[0].id == id then [ws[0].word] else []) + rest
  }

  /** Words strictly ascending in JavaScript's string order. */
  ghost predicate TextsAscending(s: seq<Text>)
  {
    forall i, j :: 0 <= i < j < |s| ==> TextLess(s[i], s[j])
  }

  lemma ConsAscending(x: Text, rest: seq<Text>)
    requires TextsAscending(rest)
    requires forall k :: 0 <= k < |rest| ==> TextLess(x, rest[k])
    ensures TextsAscending([x] + rest)
  {
    var r := [x] + rest;
    forall i, j | 0 <= i < j < |r|
      ensures TextLess(r[i], r[j])
    {
      assert r[j] == rest[j - 1];
      if i > 0 {
        assert r[i] == rest[i - 1];
      }
    }
  }

  lemma SortedTail(ws: seq<Token>)
    requires StrictlySorted(ws) && |ws| > 0
    ensures StrictlySorted(ws[1..])
  {
    assert forall i :: 0 <= i < |ws| - 1 ==> ws[1..][i] == ws[i + 1];
  }

  /** On a strictly sorted list the words found for an id come out in ascending order. */
  lemma {:induction false} WordsByIdSorted(ws: seq<Token>, id: int)
    requires StrictlySorted(ws)
    ensures TextsAscending(WordsById(ws, id))
  {
    if |ws| > 0 {
      SortedTail(ws);
      WordsByIdSorted(ws[1..], id);
      var rest := WordsById(ws[1..], id);
      if ws[0].id == id {
        forall k | 0 <= k < |rest|
          ensures TextLess(ws[0].word, rest[k])
        {
          assert rest[k] in rest;
          var i :| 0 <= i < |ws[1..]| && ws[1..][i].word == rest[k] && ws[1..][i].id == id;
          assert ws[i + 1].word == rest[k];
        }
        ConsAscending(ws[0].word, rest);
        assert WordsById(ws, id) == [ws[0].word] + rest;
      } else {
        assert WordsById(ws, id) == rest;
      }
    }
  }

  /** Words in ascending order, equal neighbours allowed. */
  ghost predicate TextsNonDescending(s: seq<Text>)
  {
    forall i, j {:trigger TextLess(s[i], s[j])} :: 0 <= i < j < |s| ==> s[i] == s[j] || TextLess(s[i], s[j])
  }

  lemma ConsNonDescending(x: Text, rest: seq<Text>)
    requires TextsNonDescending(rest)
    requires forall k :: 0 <= k < |rest| ==> x == rest[k] || TextLess(x, rest[k])
    ensures TextsNonDescending([x] + rest)
  {
    var r := [x] + rest;
    forall i, j | 0 <= i < j < |r|
      ensures r[i] == r[j] || TextLess(r[i], r[j])
    {
      assert r[j] == rest[j - 1];
      if i > 0 {
        assert r[i] == rest[i - 1];
      }
    }
  }

  lemma SortedTailNonStrict(ws: seq<Token>)
    requires Sorted(ws) && |ws| > 0
    ensures Sorted(ws[1..])
  {
    assert forall i :: 0 <= i < |ws| - 1 ==> ws[1..][i] == ws[i + 1];
  }

  /**
   * On a sorted list with repeated words the words found for an id come
   * out in ascending order, each equal to or below the next.
   */
  lemma {:induction false} WordsByIdOrdered(ws: seq<Token>, id: int)
    requires Sorted(ws)
    ensures TextsNonDescending(WordsById(ws, id))
  {
    if |ws| > 0 {
      SortedTailNonStrict(ws);
      WordsByIdOrdered(ws[1..], id);
      var rest := WordsById(ws[1..], id);
      if ws[0].id == id {
        forall k | 0 <= k < |rest|
          ensures ws[0].word == rest[k] || TextLess(ws[0].word, rest[k])
        {
          assert rest[k] in rest;
          var i :| 0 <= i < |ws[1..]| && ws[1..][i].word == rest[k] && ws[1..][i].id == id;
          assert ws[i + 1].word == rest[k];
        }
        ConsNonDescending(ws[0].word, rest);
        assert WordsById(ws, id) == [ws[0].word] + rest;
      } else {
        assert WordsById(ws, id) == rest;
      }
    }
  }

  /** Insert t after every token whose word does not sort above it (a stable insertion). */
  function InsertToken(ws: seq<Token>, t: Token): (r: seq<Token>)
    ensures multiset(r) == multiset(ws) + multiset{t}
  {
    if |ws| == 0 || TextLess(t.word, ws[0].word) then [t] + ws
    else
      assert ws == [ws[0]] + ws[1..];
      [ws[0]] + InsertToken(ws[1..], t)
  }

  lemma {:induction false} InsertTokenSorted(ws: seq<Token>, t: Token)
    requires Sorted(ws)
    ensures Sorted(InsertToken(ws, t))
  {
    var r := InsertToken(ws, t);
    if |ws| == 0 {
    } else if TextLess(t.word, ws[0].word) {
      forall j | 1 < j < |r|
        ensures TextLess(t.word, r[j].word)
      {
        if TextLess(ws[0].word, ws[j - 1].word) {
          TextLessTransitive(t.word, ws[0].word, ws[j - 1].word);
        }
      }
    } else {
      InsertTokenSorted(ws[1..], t);
      TextLessTotal(t.word, ws[0].word);
      var rest := InsertToken(ws[1..], t);
      forall k | 0 <= k < |rest|
        ensures ws[0].word == rest[k].word || TextLess(ws[0].word, rest[k].word)
      {
        assert rest[k] in multiset(rest);
        if rest[k] != t {
          assert rest[k] in multiset(ws[1..]);
          var m :| 0 <= m < |ws[1..]| && ws[1..][m] == rest[k];
          assert ws[m + 1] == rest[k];
        }
      }
    }
  }

  /** Inserting a token whose word is new keeps a strictly sorted list strictly sorted. */
  lemma {:induction false} InsertTokenStrict(ws: seq<Token>, t: Token)
    requires StrictlySorted(ws)
    requires forall i :: 0 <= i < |ws| ==> ws[i].word != t.word
    ensures StrictlySorted(InsertToken(ws, t))
  {
    var r := InsertToken(ws, t);
    if |ws| == 0 {
    } else if TextLess(t.word, ws[0].word) {
      forall j | 1 <= j < |r|
        ensures TextLess(t.word, r[j].word)
      {
        if j > 1 {
          TextLessTransitive(t.word, ws[0].word, ws[j - 1].word);
        }
      }
    } else {
      InsertTokenStrict(ws[1..], t);
      TextLessTotal(t.word, ws[0].word);
      var rest := InsertToken(ws[1..], t);
      forall k | 0 <= k < |rest|
        ensures TextLess(ws[0].word, rest[k].word)
      {
        assert rest[k] in multiset(rest);
        if rest[k] != t {
          assert rest[k] in multiset(ws[1..]);
          var m :| 0 <= m < |ws[1..]| && ws[1..][m] == rest[k];
          assert ws[m + 1] == rest[k];
        }
      }
    }
  }

  /** The constructor's `sort(tokenComp)`: a stable sort by word. */
  function SortTokens(src: seq<Token>): (r: seq<Token>)
    ensures multiset(r) == multiset(src)
  {
    if |src| == 0 then []
    else
      assert src == src[..|src| - 1] + [src[|src| - 1]];
      InsertToken(SortTokens(src[..|src| - 1]), src[|src| - 1])
  }

  /** No two tokens share a word. */
  ghost predicate DistinctWords(src: seq<Token>)
  {
    forall i, j :: 0 <= i < j < |src| ==> src[i].word != src[j].word
  }

  /** The constructor's sort leaves the list ordered by word. */
  lemma {:induction false} SortTokensSorted(src: seq<Token>)
    ensures Sorted(SortTokens(src))
  {
    if |src| > 0 {
      SortTokensSorted(src[..|src| - 1]);
      InsertTokenSorted(SortTokens(src[..|src| - 1]), src[|src| - 1]);
    }
  }

  /** From tokens with distinct words the constructor builds a valid (strictly sorted) list. */
  lemma {:induction false} SortTokensStrict(src: seq<Token>)
    requires DistinctWords(src)
    ensures StrictlySorted(SortTokens(src))
  {
    if |src| > 0 {
      var front := src[..|src| - 1];
      var last := src[|src| - 1];
      assert DistinctWords(front);
      SortTokensStrict(front);
      var s := SortTokens(front);
      forall i | 0 <= i < |s|
        ensures s[i].word != last.word
      {
        assert s[i] in multiset(front);
        var m :| 0 <= m < |front| && front[m] == s[i];
      }
      InsertTokenStrict(s, last);
    }
  }
}
