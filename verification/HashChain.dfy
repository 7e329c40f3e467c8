/** Chained receipts: each item carries the digest of its body, and its body the digest of the
    item before. The digest is a free constructor: equal digests have equal bodies. */
module HashChain {
  import opened Prelude

  datatype Digest<E> =
    | OfBody(schema: Option<string>, previous: Option<Digest<E>>, content: E)
    | OtherText(text: string)

  /** One entry of a presented chain; anything but an object is malformed. */
  datatype Item<E> =
    | Item(schema: Option<string>, previous: Option<Digest<E>>, content: E, digest: Option<Digest<E>>)
    | NotAnObject

  datatype ChainError = Malformed(at: nat) | Broken(at: nat) | Tampered(at: nat)

  datatype Replay<E> = Replay(count: nat, last: Option<Digest<E>>)

  /** Manufactures an item that continues a chain. */
  function Seal<E>(schema: string, content: E, previous: Option<Digest<E>>): Item<E> {
    Item(Some(schema), previous, content, Some(OfBody(Some(schema), previous, content)))
  }

  function Last<E>(items: seq<Item<E>>): Option<Digest<E>> {
    if items == [] || items[|items| - 1].NotAnObject? then None else items[|items| - 1].digest
  }

  ghost predicate Genuine<E>(item: Item<E>) {
    item.Item? && item.digest == Some(OfBody(item.schema, item.previous, item.content))
  }

  /** Every item is genuine and names the digest of the one before it; the first names none. */
  ghost predicate Chained<E>(items: seq<Item<E>>) {
    forall i :: 0 <= i < |items| ==> Genuine(items[i]) && items[i].previous == Last(items[..i])
  }

  method ReplayChain<E(==)>(items: seq<Item<E>>) returns (r: Result<Replay<E>, ChainError>)
    ensures r.Ok? <==> Chained(items)
    ensures r.Ok? ==> r.value == Replay(|items|, Last(items))
    ensures r.Err? ==> r.error.at < |items| && Chained(items[..r.error.at])
    ensures r.Err? ==>
              var item := items[r.error.at];
              match r.error
              case Malformed(_) => item.NotAnObject?
              case Broken(at) => item.Item? && item.previous != Last(items[..at])
              case Tampered(at) => item.Item? && item.previous == Last(items[..at]) && !Genuine(item)
  {
    var previous: Option<Digest<E>> := None;
    var count := 0;
    while count < |items|
      invariant count <= |items| && Chained(items[..count]) && previous == Last(items[..count])
    {
      var item := items[count];
      if item.NotAnObject? {
        return Err(Malformed(count));
      }
      if item.previous != previous {
        return Err(Broken(count));
      }
      if item.digest != Some(OfBody(item.schema, item.previous, item.content)) {
        return Err(Tampered(count));
      }
      ChainedGrows(items[..count], item);
      assert items[..count + 1] == items[..count] + [item];
      previous := item.digest;
      count := count + 1;
    }
    assert items[..count] == items;
    return Ok(Replay(count, previous));
  }

  lemma ChainedGrows<E>(items: seq<Item<E>>, item: Item<E>)
    ensures Chained(items + [item]) <==> Chained(items) && Genuine(item) && item.previous == Last(items)
    ensures Genuine(item) ==> Last(items + [item]) == item.digest
  {
    var longer := items + [item];
    assert longer[..|items|] == items;
    forall i | 0 <= i < |items| ensures longer[..i] == items[..i] { }
    if Chained(longer) {
      forall i | 0 <= i < |items| ensures Genuine(items[i]) && items[i].previous == Last(items[..i]) {
        assert longer[i] == items[i];
      }
      assert longer[|items|] == item;
    }
  }

  lemma PrefixChained<E>(items: seq<Item<E>>, k: nat)
    requires k <= |items| && Chained(items)
    ensures Chained(items[..k])
  {
    forall i | 0 <= i < k ensures Genuine(items[..k][i]) && items[..k][i].previous == Last(items[..k][..i]) {
      assert items[..k][..i] == items[..i];
    }
  }

  lemma EndOfChain<E>(items: seq<Item<E>>)
    requires Chained(items)
    ensures Last(items).None? <==> items == []
  {
    if items != [] { assert Genuine(items[|items| - 1]); }
  }

  /** Two accepted chains with the same final digest are the same chain: there is no other
      sequence, longer, shorter or edited, that replays to that digest. */
  lemma {:induction false} SameEndSameChain<E>(a: seq<Item<E>>, b: seq<Item<E>>)
    requires Chained(a) && Chained(b) && Last(a) == Last(b)
    ensures a == b
  {
    if a == [] || b == [] {
      EndOfChain(a);
      EndOfChain(b);
    } else {
      var i, j := |a| - 1, |b| - 1;
      assert Genuine(a[i]) && Genuine(b[j]);
      assert a[i] == b[j];
      PrefixChained(a, i);
      PrefixChained(b, j);
      SameEndSameChain(a[..i], b[..j]);
      assert a == a[..i] + [a[i]] && b == b[..j] + [b[j]];
    }
  }

  /** Any change to an accepted chain is noticed: it is either refused or replays differently. */
  lemma TamperingShows<E>(a: seq<Item<E>>, b: seq<Item<E>>)
    requires Chained(a) && a != b
    ensures !Chained(b) || Last(b) != Last(a)
  {
    if Chained(b) && Last(b) == Last(a) { SameEndSameChain(a, b); }
  }

  /** Sealing contents one after the other, each on the digest of the one before. */
  function SealAll<E>(schema: string, contents: seq<E>): seq<Item<E>> {
    if contents == [] then []
    else
      var items := SealAll(schema, contents[..|contents| - 1]);
      items + [Seal(schema, contents[|contents| - 1], Last(items))]
  }

  /** What is manufactured replays, in full length, and shows exactly the sealed contents. */
  lemma {:induction false} SealedReplays<E>(schema: string, contents: seq<E>)
    ensures Chained(SealAll(schema, contents))
    ensures |SealAll(schema, contents)| == |contents|
    ensures forall i :: 0 <= i < |contents| ==>
        var item := SealAll(schema, contents)[i];
        item.Item? && item.schema == Some(schema) && item.content == contents[i]
  {
    if contents == [] {
    } else {
      var items := SealAll(schema, contents[..|contents| - 1]);
      SealedReplays(schema, contents[..|contents| - 1]);
      ChainedGrows(items, Seal(schema, contents[|contents| - 1], Last(items)));
    }
  }
}
