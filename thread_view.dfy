/**
 * The threaded view of one thread: the fetched rows are indexed by key
 * (`imapId ?? id`), then every item whose `inReplyTo` names an indexed key is
 * attached as a reply to that item and every other item becomes a root.
 *
 * ThreadItem objects are represented by their position in the index: the
 * reply list of item `p` is `replies[p]`, a sequence of positions, so an item
 * that is attached to a parent and later receives replies itself is the same
 * item in both places, as with the shared `ThreadItem` objects `getThreadView`
 * builds.
 */
module ThreadView {
  import opened Wrappers
  import opened Emails

  /** PHP truthiness of a nullable string: `null`, `""` and `"0"` are falsy. */
  predicate Truthy(s: Option<string>) {
    s.Some? && s.value != "" && s.value != "0"
  }

  /** The index key of an email: `imapId ?? id`. */
  function Key(e: Email): string {
    if e.imapId.Some? then e.imapId.value else e.id
  }

  /**
   * A PHP array from keys to items: `keys` in insertion order, `items[j]`
   * stored under `keys[j]`.
   */
  datatype Index = Index(keys: seq<string>, items: seq<Email>)

  ghost predicate WellFormed(ix: Index) {
    && |ix.keys| == |ix.items|
    && forall i, j :: 0 <= i < j < |ix.keys| ==> ix.keys[i] != ix.keys[j]
  }

  /** Where key `k` sits in `keys` (its first occurrence). */
  function PositionOf(keys: seq<string>, k: string): (p: nat)
    requires k in keys
    ensures p < |keys| && keys[p] == k
    ensures k !in keys[..p]
  {
    if keys[0] == k then 0
    else
      var p := 1 + PositionOf(keys[1..], k);
      assert keys[..p] == [keys[0]] + keys[1..][..p - 1];
      p
  }

  /** With distinct keys, the position of a key is the only place it occurs. */
  lemma PositionOfUnique(ix: Index, j: int, k: string)
    requires WellFormed(ix) && 0 <= j < |ix.keys| && ix.keys[j] == k
    ensures PositionOf(ix.keys, k) == j
  {
  }

  /**
   * `$indexedThreadItem[$k] = $e`: an existing key keeps its place and gets
   * the new item, a new key is appended.
   */
  function Put(ix: Index, k: string, e: Email): (r: Index)
    requires WellFormed(ix)
    ensures WellFormed(r)
    ensures k in r.keys
  {
    if k in ix.keys then Index(ix.keys, ix.items[PositionOf(ix.keys, k) := e])
    else Index(ix.keys + [k], ix.items + [e])
  }

  /**
   * What `Put` does to the slots: `k`'s slot holds `e`, every old slot keeps
   * its key and, unless it is `k`'s, its item, and a new key goes at the end.
   */
  lemma PutSlots(ix: Index, k: string, e: Email)
    requires WellFormed(ix)
    ensures var r := Put(ix, k, e);
      && r.items[PositionOf(r.keys, k)] == e
      && |r.keys| == |ix.keys| + (if k in ix.keys then 0 else 1)
      && (k !in ix.keys ==> r.keys[|ix.keys|] == k)
      && forall j :: 0 <= j < |ix.keys| ==>
           Put(ix, k, e).keys[j] == ix.keys[j] && (ix.keys[j] != k ==> Put(ix, k, e).items[j] == ix.items[j])
  {
    var r := Put(ix, k, e);
    if k !in ix.keys {
      PositionOfUnique(r, |ix.keys|, k);
    }
  }

  /** The index the first loop of the thread view builds from the fetched emails. */
  function IndexByKey(emails: seq<Email>): (ix: Index)
    ensures WellFormed(ix)
    ensures |ix.items| <= |emails|
  {
    if emails == [] then Index([], [])
    else
      var last := emails[|emails| - 1];
      Put(IndexByKey(emails[..|emails| - 1]), Key(last), last)
  }

  /** Some email of `emails` has key `k`. */
  ghost predicate HasKey(emails: seq<Email>, k: string) {
    exists i :: 0 <= i < |emails| && Key(emails[i]) == k
  }

  /** `e` is the last email of `emails` with key `k`. */
  ghost predicate LastWithKey(emails: seq<Email>, k: string, e: Email) {
    exists i :: 0 <= i < |emails| && emails[i] == e && Key(e) == k &&
      forall i' :: i < i' < |emails| ==> Key(emails[i']) != k
  }

  /** The index holds one slot per distinct key of the emails. */
  lemma {:induction false} IndexByKeyKeys(emails: seq<Email>)
    ensures forall k :: k in IndexByKey(emails).keys <==> HasKey(emails, k)
  {
    if emails != [] {
      var init := emails[..|emails| - 1];
      var last := emails[|emails| - 1];
      IndexByKeyKeys(init);
      var ix0 := IndexByKey(init);
      var ix := IndexByKey(emails);
      assert ix == Put(ix0, Key(last), last);
      assert Key(emails[|emails| - 1]) == Key(last);
      forall k ensures k in ix.keys <==> HasKey(emails, k) {
        if k != Key(last) {
          if k in ix.keys {
            assert k in ix0.keys;
            assert HasKey(init, k);
            var i :| 0 <= i < |init| && Key(init[i]) == k;
            assert emails[i] == init[i];
          }
          if HasKey(emails, k) {
            var i :| 0 <= i < |emails| && Key(emails[i]) == k;
            assert i < |init| && init[i] == emails[i];
            assert HasKey(init, k);
          }
        }
      }
    }
  }

  /**
   * Each slot holds the last email with its key: a later email overwrites an
   * earlier one with the same key.
   */
  lemma {:induction false} IndexByKeyLast(emails: seq<Email>)
    ensures forall j :: 0 <= j < |IndexByKey(emails).items| ==>
      LastWithKey(emails, IndexByKey(emails).keys[j], IndexByKey(emails).items[j])
  {
    if emails != [] {
      var init := emails[..|emails| - 1];
      var last := emails[|emails| - 1];
      var n := |emails| - 1;
      IndexByKeyLast(init);
      var ix0 := IndexByKey(init);
      var ix := IndexByKey(emails);
      assert ix == Put(ix0, Key(last), last);
      forall j | 0 <= j < |ix.items| ensures LastWithKey(emails, ix.keys[j], ix.items[j]) {
        if ix.keys[j] == Key(last) {
          if Key(last) in ix0.keys {
            PositionOfUnique(ix0, j, Key(last));
          }
          assert ix.items[j] == last;
          assert emails[n] == last;
        } else {
          assert j < |ix0.items| && ix.keys[j] == ix0.keys[j] && ix.items[j] == ix0.items[j];
          assert LastWithKey(init, ix0.keys[j], ix0.items[j]);
          var i :| 0 <= i < |init| && init[i] == ix0.items[j] && Key(ix0.items[j]) == ix0.keys[j] &&
            forall i' :: i < i' < |init| ==> Key(init[i']) != ix0.keys[j];
          assert emails[i] == ix.items[j];
          forall i' | i < i' < |emails| ensures Key(emails[i']) != ix.keys[j] {
            if i' < n {
              assert emails[i'] == init[i'];
            }
          }
        }
      }
    }
  }

  /** The keys after one more email: its key is appended unless already present. */
  lemma KeysStep(emails: seq<Email>)
    requires |emails| > 0
    ensures var ix0 := IndexByKey(emails[..|emails| - 1]); var k := Key(emails[|emails| - 1]);
      IndexByKey(emails).keys == if k in ix0.keys then ix0.keys else ix0.keys + [k]
  {
  }

  /**
   * Keys are kept in the order of their first appearance: an email with a
   * later key is preceded by an email with each earlier key.
   */
  lemma {:induction false} IndexByKeyFirstAppearance(emails: seq<Email>, j: nat, j': nat, i': nat)
    requires j < j' < |IndexByKey(emails).keys| && i' < |emails|
    requires Key(emails[i']) == IndexByKey(emails).keys[j']
    ensures exists i :: 0 <= i < i' && Key(emails[i]) == IndexByKey(emails).keys[j]
    decreases |emails|, 1
  {
    var n := |emails| - 1;
    KeysStep(emails);
    if i' < n {
      EarlierKeyIsOld(emails, i', j');
      FirstAppearanceBefore(emails, n, j, j', i');
    } else {
      var ix0 := IndexByKey(emails[..n]);
      assert j < |ix0.keys| && IndexByKey(emails).keys[j] == ix0.keys[j];
      if j' < |ix0.keys| {
        OldKeyHasEmail(emails[..n], j');
        var i'' :| 0 <= i'' < n && Key(emails[..n][i'']) == ix0.keys[j'];
        FirstAppearanceBefore(emails, n, j, j', i'');
      } else {
        OldKeyHasEmail(emails[..n], j);
        var i :| 0 <= i < n && Key(emails[..n][i]) == ix0.keys[j];
        assert emails[i] == emails[..n][i];
      }
    }
  }

  /** The induction step for an email among the first `n`, whose key was already in the earlier index. */
  lemma {:induction false} FirstAppearanceBefore(emails: seq<Email>, n: nat, j: nat, j': nat, i': nat)
    requires n == |emails| - 1
    requires j < j' < |IndexByKey(emails[..n]).keys| && i' < n
    requires Key(emails[i']) == IndexByKey(emails[..n]).keys[j']
    ensures exists i :: 0 <= i < i' && Key(emails[i]) == IndexByKey(emails[..n]).keys[j]
    decreases |emails|, 0
  {
    var init := emails[..n];
    assert init[i'] == emails[i'];
    IndexByKeyFirstAppearance(init, j, j', i');
    var i :| 0 <= i < i' && Key(init[i]) == IndexByKey(init).keys[j];
    assert emails[i] == init[i];
  }

  /** Every key of the index is the key of some email. */
  lemma OldKeyHasEmail(emails: seq<Email>, j: nat)
    requires j < |IndexByKey(emails).keys|
    ensures exists i :: 0 <= i < |emails| && Key(emails[i]) == IndexByKey(emails).keys[j]
  {
    IndexByKeyKeys(emails);
    assert IndexByKey(emails).keys[j] in IndexByKey(emails).keys;
  }

  /** The key of an email before the last one was already among the earlier keys. */
  lemma EarlierKeyIsOld(emails: seq<Email>, i': nat, j': nat)
    requires i' < |emails| - 1 && j' < |IndexByKey(emails).keys|
    requires Key(emails[i']) == IndexByKey(emails).keys[j']
    ensures j' < |IndexByKey(emails[..|emails| - 1]).keys|
  {
    var init := emails[..|emails| - 1];
    KeysStep(emails);
    IndexByKeyKeys(init);
    assert init[i'] == emails[i'];
    assert HasKey(init, Key(init[i']));
  }

  /** When no two emails share a key, the index holds exactly the emails, in order. */
  lemma {:induction false} IndexByKeyDistinct(emails: seq<Email>)
    requires forall i, j :: 0 <= i < j < |emails| ==> Key(emails[i]) != Key(emails[j])
    ensures IndexByKey(emails).items == emails
    ensures |IndexByKey(emails).keys| == |emails|
    ensures forall k :: 0 <= k < |emails| ==> IndexByKey(emails).keys[k] == Key(emails[k])
  {
    if emails != [] {
      var n := |emails| - 1;
      var init := emails[..n];
      var last := emails[n];
      var ix0 := IndexByKey(init);
      assert IndexByKey(emails) == Put(ix0, Key(last), last);
      forall i, j | 0 <= i < j < |init| ensures Key(init[i]) != Key(init[j]) {
        assert init[i] == emails[i] && init[j] == emails[j];
      }
      IndexByKeyDistinct(init);
      forall k | 0 <= k < |ix0.keys| ensures ix0.keys[k] != Key(last) {
        assert init[k] == emails[k];
      }
      assert IndexByKey(emails) == Index(ix0.keys + [Key(last)], ix0.items + [last]);
      assert init + [last] == emails;
    }
  }

  /** Where item `i` is attached: `Some(p)` as a reply to item `p`, `None` as a root. */
  function ParentOf(ix: Index, i: nat): (r: Option<nat>)
    requires WellFormed(ix) && i < |ix.items|
    ensures r.Some? ==> ix.items[i].inReplyTo.Some? && r.value < |ix.items| && ix.keys[r.value] == ix.items[i].inReplyTo.value
    ensures r.None? <==> !Truthy(ix.items[i].inReplyTo) || ix.items[i].inReplyTo.value !in ix.keys
  {
    var replyId := ix.items[i].inReplyTo;
    if Truthy(replyId) && replyId.value in ix.keys then Some(PositionOf(ix.keys, replyId.value))
    else None
  }

  /** The root list and, per item, its reply list. */
  datatype Links = Links(roots: seq<nat>, replies: seq<seq<nat>>)

  /** The links after the second loop has visited items `0 .. n - 1`, replies appended at the end. */
  function LinkFirst(ix: Index, n: nat): (l: Links)
    requires WellFormed(ix) && n <= |ix.items|
    ensures |l.replies| == |ix.items|
  {
    if n == 0 then Links([], seq(|ix.items|, _ => []))
    else
      var l := LinkFirst(ix, n - 1);
      match ParentOf(ix, n - 1)
      case None => l.(roots := l.roots + [n - 1])
      case Some(p) => l.(replies := l.replies[p := l.replies[p] + [n - 1]])
  }

  /** The links of the whole index. */
  function Link(ix: Index): (l: Links)
    requires WellFormed(ix)
    ensures |l.replies| == |ix.items|
  {
    LinkFirst(ix, |ix.items|)
  }

  ghost predicate Increasing(s: seq<nat>) {
    forall a, b :: 0 <= a < b < |s| ==> s[a] < s[b]
  }

  /** All positions placed anywhere in a family of reply lists, with multiplicity. */
  ghost function Placements(rs: seq<seq<nat>>): multiset<nat> {
    if rs == [] then multiset{} else multiset(rs[0]) + Placements(rs[1..])
  }

  function Range(n: nat): (r: seq<nat>)
    ensures |r| == n && forall i :: 0 <= i < n ==> r[i] == i
  {
    seq(n, i => i)
  }

  lemma {:induction false} PlacementsAppendAt(rs: seq<seq<nat>>, p: nat, x: nat)
    requires p < |rs|
    ensures Placements(rs[p := rs[p] + [x]]) == Placements(rs) + multiset{x}
  {
    var rs' := rs[p := rs[p] + [x]];
    if p == 0 {
      assert rs'[1..] == rs[1..];
    } else {
      assert rs'[1..] == rs[1..][p - 1 := rs[1..][p - 1] + [x]];
      PlacementsAppendAt(rs[1..], p - 1, x);
    }
  }

  lemma {:induction false} PlacementsOfEmpty(rs: seq<seq<nat>>)
    requires forall k :: 0 <= k < |rs| ==> rs[k] == []
    ensures Placements(rs) == multiset{}
  {
    if rs != [] {
      PlacementsOfEmpty(rs[1..]);
    }
  }

  lemma RangeStep(n: nat)
    requires n > 0
    ensures multiset(Range(n)) == multiset(Range(n - 1)) + multiset{(n - 1) as nat}
  {
    assert Range(n) == Range(n - 1) + [n - 1];
  }

  lemma {:induction false} RangeOnce(n: nat, j: nat)
    ensures multiset(Range(n))[j] == if j < n then 1 else 0
  {
    if n > 0 {
      assert Range(n) == Range(n - 1) + [n - 1];
      RangeOnce(n - 1, j);
    }
  }

  /** After the first `n` items, item `j` is a root exactly when it has no parent. */
  lemma {:induction false} LinkFirstRoots(ix: Index, n: nat)
    requires WellFormed(ix) && n <= |ix.items|
    ensures forall j: nat :: j in LinkFirst(ix, n).roots <==> j < n && ParentOf(ix, j).None?
  {
    if n > 0 {
      LinkFirstRoots(ix, n - 1);
    }
  }

  /** After the first `n` items, item `j` is in the reply list of `p` exactly when `p` is its parent. */
  lemma {:induction false} LinkFirstReplies(ix: Index, n: nat, p: nat, j: nat)
    requires WellFormed(ix) && n <= |ix.items| && p < |ix.items|
    ensures j in LinkFirst(ix, n).replies[p] <==> j < n && ParentOf(ix, j) == Some(p)
  {
    if n > 0 {
      var m: nat := n - 1;
      LinkFirstReplies(ix, m, p, j);
      LinkFirstStep(ix, n);
    }
  }

  /** Every list is in visiting order and holds only visited items. */
  lemma {:induction false} LinkFirstOrdered(ix: Index, n: nat)
    requires WellFormed(ix) && n <= |ix.items|
    ensures var l := LinkFirst(ix, n);
      && Increasing(l.roots) && (forall k :: 0 <= k < |l.roots| ==> l.roots[k] < n)
      && forall p :: 0 <= p < |ix.items| ==>
           Increasing(l.replies[p]) && forall k :: 0 <= k < |l.replies[p]| ==> l.replies[p][k] < n
  {
    if n > 0 {
      LinkFirstOrdered(ix, n - 1);
    }
  }

  /** Every visited item is placed exactly once. */
  lemma {:induction false} LinkFirstPartition(ix: Index, n: nat)
    requires WellFormed(ix) && n <= |ix.items|
    ensures multiset(LinkFirst(ix, n).roots) + Placements(LinkFirst(ix, n).replies) == multiset(Range(n))
  {
    var l := LinkFirst(ix, n);
    if n == 0 {
      PlacementsOfEmpty(l.replies);
    } else {
      var m: nat := n - 1;
      var l0 := LinkFirst(ix, m);
      LinkFirstPartition(ix, m);
      RangeStep(n);
      LinkFirstStep(ix, n);
      PlacementsStep(l0, ParentOf(ix, m), m, l);
    }
  }

  /** Placing item `m` as a root or as a reply adds it once to the placements. */
  lemma PlacementsStep(l0: Links, parent: Option<nat>, m: nat, l: Links)
    requires parent.Some? ==> parent.value < |l0.replies|
    requires l == if parent.None? then Links(l0.roots + [m], l0.replies)
      else Links(l0.roots, l0.replies[parent.value := l0.replies[parent.value] + [m]])
    ensures multiset(l.roots) + Placements(l.replies) == multiset(l0.roots) + Placements(l0.replies) + multiset{m}
  {
    if parent.Some? {
      PlacementsAppendAt(l0.replies, parent.value, m);
    }
  }

  /** One step of the second loop. */
  lemma LinkFirstStep(ix: Index, n: nat)
    requires WellFormed(ix) && 0 < n <= |ix.items|
    ensures var l0 := LinkFirst(ix, n - 1); var parent := ParentOf(ix, n - 1);
      LinkFirst(ix, n) ==
        if parent.None? then Links(l0.roots + [n - 1], l0.replies)
        else Links(l0.roots, l0.replies[parent.value := l0.replies[parent.value] + [n - 1]])
  {
  }

  /**
   * An item is a root exactly when its `inReplyTo` is falsy or names a key
   * that is not in the index.
   */
  lemma RootsExactly(ix: Index, j: nat)
    requires WellFormed(ix)
    ensures j in Link(ix).roots <==>
      j < |ix.items| && (!Truthy(ix.items[j].inReplyTo) || ix.items[j].inReplyTo.value !in ix.keys)
  {
    LinkFirstRoots(ix, |ix.items|);
  }

  /**
   * Item `j` is in the reply list of item `p` exactly when its `inReplyTo` is
   * truthy and names the key of `p`.
   */
  lemma RepliesExactly(ix: Index, p: nat, j: nat)
    requires WellFormed(ix) && p < |ix.items|
    ensures j in Link(ix).replies[p] <==>
      j < |ix.items| && Truthy(ix.items[j].inReplyTo) && ix.items[j].inReplyTo.value == ix.keys[p]
  {
    LinkFirstReplies(ix, |ix.items|, p, j);
    if j < |ix.items| && Truthy(ix.items[j].inReplyTo) && ix.items[j].inReplyTo.value == ix.keys[p] {
      PositionOfUnique(ix, p, ix.keys[p]);
    }
  }

  /**
   * No item is dropped or placed twice: across the root list and all reply
   * lists every item occurs exactly once, and nothing else occurs.
   */
  lemma PlacedExactlyOnce(ix: Index, j: nat)
    requires WellFormed(ix)
    ensures var l := Link(ix);
      (multiset(l.roots) + Placements(l.replies))[j] == if j < |ix.items| then 1 else 0
  {
    LinkFirstPartition(ix, |ix.items|);
    RangeOnce(|ix.items|, j);
  }

  /** Roots, and the replies of each item, come in index order. */
  lemma IndexOrder(ix: Index)
    requires WellFormed(ix)
    ensures Increasing(Link(ix).roots)
    ensures forall p :: 0 <= p < |ix.items| ==> Increasing(Link(ix).replies[p])
  {
    LinkFirstOrdered(ix, |ix.items|);
  }

  /**
   * When no two fetched emails share a key, the roots come in ascending date
   * order of the fetched rows.
   */
  lemma RootsByDate(emails: seq<Email>)
    requires DateOrdered(emails)
    requires forall i, j :: 0 <= i < j < |emails| ==> Key(emails[i]) != Key(emails[j])
    ensures var ix := IndexByKey(emails); var roots := Link(ix).roots;
      forall a, b :: 0 <= a < b < |roots| ==> roots[a] < roots[b] < |emails| && emails[roots[a]].date <= emails[roots[b]].date
  {
    var ix := IndexByKey(emails);
    IndexByKeyDistinct(emails);
    LinkFirstOrdered(ix, |ix.items|);
  }

  /**
   * Without distinct keys the roots need not be in date order. Rows "1"
   * (`imapId` "a", date 1), "2" (date 2) and "3" (`imapId` "a", date 3)
   * have distinct ids and come in date order. They give the index
   * `["a": row 3, "2": row 2]`, whose roots are row 3 then row 2.
   */
  lemma RootsByDateNeedsDistinctKeys()
    ensures var es := SharedKeyThread();
      var ix := IndexByKey(es);
      var roots := Link(ix).roots;
      && UniqueIds(es) && DateOrdered(es)
      && |roots| == 2 && roots[0] < |ix.items| && roots[1] < |ix.items|
      && ix.items[roots[0]].date > ix.items[roots[1]].date
  {
    var es := SharedKeyThread();
    SharedKeyThreadIndex();
    var ix := IndexByKey(es);
    DuplicateKeyRoots(ix, es[2], es[1]);
  }

  /** Three rows with distinct ids in date order; the first and the last share `imapId` "a". */
  function SharedKeyThread(): seq<Email> {
    [Message("1", None, 1).(imapId := Some("a")), Message("2", None, 2), Message("3", None, 3).(imapId := Some("a"))]
  }

  lemma SharedKeyThreadIndex()
    ensures IndexByKey(SharedKeyThread()) == Index(["a", "2"], [SharedKeyThread()[2], SharedKeyThread()[1]])
  {
    var es := SharedKeyThread();
    var a, b, c := es[0], es[1], es[2];
    assert Key(a) == "a" && Key(b) == "2" && Key(c) == "a";
    assert es[..2] == [a, b] && [a, b][..1] == [a] && [a][..0] == [];
    assert IndexByKey([a]) == Index(["a"], [a]);
    assert "2" !in ["a"];
    assert IndexByKey([a, b]) == Index(["a", "2"], [a, b]);
    assert PositionOf(["a", "2"], "a") == 0;
  }

  /** The second loop over an index of two items without `inReplyTo`: both are roots. */
  lemma DuplicateKeyRoots(ix: Index, x: Email, y: Email)
    requires WellFormed(ix) && ix.items == [x, y] && x.inReplyTo == None && y.inReplyTo == None
    ensures Link(ix).roots == [0, 1]
  {
    assert ParentOf(ix, 0) == None && ParentOf(ix, 1) == None;
    LinkFirstStep(ix, 1);
    assert LinkFirst(ix, 1).roots == [0];
    LinkFirstStep(ix, 2);
  }

  /** Without truthy `inReplyTo` values every item is a root, in index order. */
  lemma {:induction false} AllRootsWithoutReplies(ix: Index, n: nat)
    requires WellFormed(ix) && n <= |ix.items|
    requires forall j :: 0 <= j < |ix.items| ==> !Truthy(ix.items[j].inReplyTo)
    ensures LinkFirst(ix, n).roots == Range(n)
  {
    if n > 0 {
      AllRootsWithoutReplies(ix, n - 1);
      assert Range(n) == Range(n - 1) + [n - 1];
    }
  }

  /**
   * When no fetched email carries a truthy `inReplyTo` (as for every row the
   * receive handler inserts, which leaves that column NULL), the view is flat:
   * every item is a root.
   */
  lemma FlatWithoutReplies(emails: seq<Email>)
    requires forall i :: 0 <= i < |emails| ==> !Truthy(emails[i].inReplyTo)
    ensures Link(IndexByKey(emails)).roots == Range(|IndexByKey(emails).items|)
  {
    var ix := IndexByKey(emails);
    IndexByKeyLast(emails);
    forall j | 0 <= j < |ix.items| ensures !Truthy(ix.items[j].inReplyTo) {
      assert LastWithKey(emails, ix.keys[j], ix.items[j]);
    }
    AllRootsWithoutReplies(ix, |ix.items|);
  }

  /** A plain message of thread 1 for the examples below. */
  function Message(id: string, inReplyTo: Option<string>, date: int): Email {
    Email(id, "", "", "", 1, date, None, None, None, inReplyTo)
  }

  /** The four messages of the reply-tree example. */
  function ExampleThread(): seq<Email> {
    [Message("a", None, 1), Message("b", Some("a"), 2), Message("c", Some("b"), 3), Message("d", Some("a"), 4)]
  }

  lemma ExampleThreadIndex()
    ensures IndexByKey(ExampleThread()) == Index(["a", "b", "c", "d"], ExampleThread())
  {
    var es := ExampleThread();
    assert Key(es[0]) == "a" && Key(es[1]) == "b" && Key(es[2]) == "c" && Key(es[3]) == "d";
    IndexByKeyDistinct(es);
    assert IndexByKey(es).keys == ["a", "b", "c", "d"];
  }

  /**
   * A (root), B replying to A, C replying to B and D replying to A, in that
   * date order: one root A whose replies are B then D, and B's reply C.
   */
  lemma ReplyTreeExample()
    ensures Link(IndexByKey(ExampleThread())) == Links([0], [[1, 3], [2], [], []])
  {
    ExampleThreadIndex();
    ReplyTreeLinks(IndexByKey(ExampleThread()));
  }

  /** The second loop over the index of the reply-tree example. */
  lemma ReplyTreeLinks(ix: Index)
    requires WellFormed(ix) && ix == Index(["a", "b", "c", "d"], ExampleThread())
    ensures Link(ix) == Links([0], [[1, 3], [2], [], []])
  {
    ReplyTreeFirstThree(ix);
    assert PositionOf(ix.keys, "a") == 0;
    assert ParentOf(ix, 3) == Some(0);
    var empty: seq<nat> := [];
    LinkFirstStep(ix, 4);
    assert [1] + [3] == [1, 3];
    assert [[1], [2], empty, empty][0 := [1, 3]] == [[1, 3], [2], empty, empty];
  }

  /** The reply-tree example after its first three messages: root A, its reply B and B's reply C. */
  lemma ReplyTreeFirstThree(ix: Index)
    requires WellFormed(ix) && ix == Index(["a", "b", "c", "d"], ExampleThread())
    ensures LinkFirst(ix, 3) == Links([0], [[1], [2], [], []])
  {
    ReplyTreeFirstTwo(ix);
    assert PositionOf(ix.keys, "b") == 1;
    assert ParentOf(ix, 2) == Some(1);
    var empty: seq<nat> := [];
    LinkFirstStep(ix, 3);
    assert empty + [2] == [2];
    assert [[1], empty, empty, empty][1 := [2]] == [[1], [2], empty, empty];
  }

  /** The reply-tree example after its first two messages: root A with reply B. */
  lemma ReplyTreeFirstTwo(ix: Index)
    requires WellFormed(ix) && ix == Index(["a", "b", "c", "d"], ExampleThread())
    ensures LinkFirst(ix, 2) == Links([0], [[1], [], [], []])
  {
    assert PositionOf(ix.keys, "a") == 0;
    assert ParentOf(ix, 0) == None;
    assert ParentOf(ix, 1) == Some(0);
    var empty: seq<nat> := [];
    assert LinkFirst(ix, 0) == Links([], [empty, empty, empty, empty]);
    LinkFirstStep(ix, 1);
    assert [] + [0] == [0];
    assert LinkFirst(ix, 1) == Links([0], [empty, empty, empty, empty]);
    LinkFirstStep(ix, 2);
    assert empty + [1] == [1];
    assert [empty, empty, empty, empty][0 := [1]] == [[1], empty, empty, empty];
  }

  /** A root `"0"`, a reply to `"0"` and a reply to the absent key `"z"`. */
  function DanglingThread(): seq<Email> {
    [Message("0", None, 1), Message("b", Some("0"), 2), Message("c", Some("z"), 3)]
  }

  lemma DanglingThreadIndex()
    ensures IndexByKey(DanglingThread()) == Index(["0", "b", "c"], DanglingThread())
  {
    var es := DanglingThread();
    assert Key(es[0]) == "0" && Key(es[1]) == "b" && Key(es[2]) == "c";
    IndexByKeyDistinct(es);
    assert IndexByKey(es).keys == ["0", "b", "c"];
  }

  /** A reply to `"0"` (falsy in PHP) and a reply to a key that is not in the thread both become roots. */
  lemma DanglingAndFalsyExample()
    ensures Link(IndexByKey(DanglingThread())).roots == [0, 1, 2]
  {
    DanglingThreadIndex();
    var ix := IndexByKey(DanglingThread());
    assert !Truthy(ix.items[1].inReplyTo);
    assert "z" !in ix.keys;
    assert ParentOf(ix, 0) == None && ParentOf(ix, 1) == None && ParentOf(ix, 2) == None;
    LinkFirstStep(ix, 1);
    assert LinkFirst(ix, 1).roots == [0];
    LinkFirstStep(ix, 2);
    assert LinkFirst(ix, 2).roots == [0, 1];
    LinkFirstStep(ix, 3);
  }

  /**
   * An email replying to its own key is attached to itself: it is not a
   * root and no root leads to it, so the view shows no roots at all.
   */
  lemma SelfReplyExample()
    ensures Link(IndexByKey([Message("x", Some("x"), 1)])) == Links([], [[0]])
  {
    var x := Message("x", Some("x"), 1);
    assert [x][..0] == [];
    var ix := IndexByKey([x]);
    assert ix == Index(["x"], [x]);
    assert PositionOf(ix.keys, "x") == 0;
    assert Truthy(x.inReplyTo);
    assert ParentOf(ix, 0) == Some(0);
    var l0 := LinkFirst(ix, 0);
    assert l0 == Links([], [[]]);
    LinkFirstStep(ix, 1);
    assert LinkFirst(ix, 1) == Links(l0.roots, l0.replies[0 := l0.replies[0] + [0]]);
    assert l0.replies[0] + [0] == [0];
    assert l0.replies[0 := [0]] == [[0]];
  }

  /** Two emails with the same `imapId`: the later one takes the earlier one's slot. */
  lemma SameKeyExample()
    ensures var first := Message("a", None, 1).(imapId := Some("k"));
      var second := Message("b", None, 2).(imapId := Some("k"));
      IndexByKey([first, second]) == Index(["k"], [second])
  {
    var first := Message("a", None, 1).(imapId := Some("k"));
    var second := Message("b", None, 2).(imapId := Some("k"));
    assert [first, second][..1] == [first];
    assert [first][..0] == [];
  }
}
