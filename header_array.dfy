/**
 * The header set of a frame is a PHP array with string keys: an ordered map in which every key
 * occurs once.  Assigning to an existing key keeps its position; assigning a new key appends it.
 */
module HeaderArray {
  import opened Wrappers

  /** One header entry: its name and its value. */
  type Header = (string, string)

  /** The header names in order. */
  function Keys(h: seq<Header>): seq<string> {
    seq(|h|, i requires 0 <= i < |h| => h[i].0)
  }

  /** No name occurs twice: what makes a sequence of entries a PHP array. */
  predicate UniqueKeys(h: seq<Header>) {
    forall i, j :: 0 <= i < j < |h| ==> h[i].0 != h[j].0
  }

  /** An ordered array of headers with distinct names. */
  type HeaderMap = h: seq<Header> | UniqueKeys(h) witness []

  /** The position of the first entry named `k`, or `|h|` when there is none. */
  function Find(h: seq<Header>, k: string): (i: nat)
    ensures i <= |h|
    ensures i < |h| ==> h[i].0 == k
    ensures forall j :: 0 <= j < i ==> h[j].0 != k
    decreases |h|
  {
    if h == [] then 0 else if h[0].0 == k then 0 else 1 + Find(h[1..], k)
  }

  /** True when some entry is named `k` (`isset($h[$k])` for a non-null value, `array_key_exists`). */
  predicate HasKey(h: seq<Header>, k: string) {
    Find(h, k) < |h|
  }

  /** A name is present exactly when it is among the names. */
  lemma HasKeyIsKey(h: seq<Header>, k: string)
    ensures HasKey(h, k) <==> k in Keys(h)
  {
    if k in Keys(h) {
      var j :| 0 <= j < |h| && Keys(h)[j] == k;
      assert h[j].0 == k;
    }
    if HasKey(h, k) {
      assert Keys(h)[Find(h, k)] == k;
    }
  }

  /** `$h[$k]`, or None when the key is absent: the value of the first entry with that name. */
  function Get(h: seq<Header>, k: string): Option<string>
    decreases |h|
  {
    if h == [] then None
    else if h[0].0 == k then Some(h[0].1)
    else Get(h[1..], k)
  }

  /** In an array every entry is what a lookup of its name returns. */
  lemma {:induction false} GetAt(h: HeaderMap, i: nat)
    requires i < |h|
    ensures Get(h, h[i].0) == Some(h[i].1)
    decreases i
  {
    if i > 0 {
      GetAt(h[1..], i - 1);
    }
  }

  /** In an array the first entry with an entry's name is that entry. */
  lemma FindAt(h: HeaderMap, i: nat)
    requires i < |h|
    ensures Find(h, h[i].0) == i
  {
    var j := Find(h, h[i].0);
    assert j <= i;
    assert j < |h| ==> h[j].0 == h[i].0;
  }

  /** A lookup of a name no entry carries finds nothing. */
  lemma {:induction false} GetAbsent(h: seq<Header>, k: string)
    requires !HasKey(h, k)
    ensures Get(h, k) == None
    decreases |h|
  {
    if h != [] {
      assert h[0].0 != k;
      assert Find(h, k) == 1 + Find(h[1..], k);
      GetAbsent(h[1..], k);
    }
  }

  /**
   * `$h[$k] = $v`: an entry with name `k` is overwritten in place; otherwise the entry is appended.
   * No other entry changes.
   */
  function Put(h: HeaderMap, k: string, v: string): (r: HeaderMap)
    ensures |r| == if HasKey(h, k) then |h| else |h| + 1
    ensures forall i :: 0 <= i < |h| ==> r[i] == if h[i].0 == k then (k, v) else h[i]
    ensures !HasKey(h, k) ==> r[|h|] == (k, v)
  {
    var i := Find(h, k);
    if i < |h| then
      var r := h[i := (k, v)];
      assert forall j :: 0 <= j < |h| ==> r[j].0 == h[j].0;
      r
    else
      var r := h + [(k, v)];
      assert forall j :: 0 <= j < |h| ==> r[j] == h[j];
      r
  }

  /** A lookup after a `Put` finds the new value for `k` and the old value for every other name. */
  lemma PutGet(h: HeaderMap, k: string, v: string, k': string)
    ensures Get(Put(h, k, v), k') == if k' == k then Some(v) else Get(h, k')
  {
    var r := Put(h, k, v);
    if k' == k {
      var i := if HasKey(h, k) then Find(h, k) else |h|;
      GetAt(r, i);
    } else if HasKey(h, k') {
      var j := Find(h, k');
      GetAt(r, j);
      GetAt(h, j);
    } else {
      GetAbsent(h, k');
      assert forall i :: 0 <= i < |r| ==> r[i].0 != k' by {
        forall i | 0 <= i < |r| ensures r[i].0 != k' {
          if i < |h| {
            assert h[i].0 != k';
          }
        }
      }
      GetAbsent(r, k');
    }
  }

  /** The names after a `Put`: unchanged when `k` was present, `k` appended otherwise. */
  lemma PutKeys(h: HeaderMap, k: string, v: string)
    ensures Keys(Put(h, k, v)) == if HasKey(h, k) then Keys(h) else Keys(h) + [k]
  {
    var r := Put(h, k, v);
    if HasKey(h, k) {
      assert forall i :: 0 <= i < |h| ==> Keys(r)[i] == Keys(h)[i];
    } else {
      assert forall i :: 0 <= i < |h| + 1 ==> Keys(r)[i] == (Keys(h) + [k])[i];
    }
  }

  /** Assigning the same value twice is the same as assigning it once. */
  lemma PutIdempotent(h: HeaderMap, k: string, v: string)
    ensures Put(Put(h, k, v), k, v) == Put(h, k, v)
  {
    var r := Put(h, k, v);
    var i := if HasKey(h, k) then Find(h, k) else |h|;
    assert r[i].0 == k;
    assert HasKey(r, k);
    var rr := Put(r, k, v);
    assert |rr| == |r|;
    forall j | 0 <= j < |r| ensures rr[j] == r[j] {
      if j < |h| {
      } else {
        assert r[|h|] == (k, v);
      }
    }
  }

  /** The value that the last entry named `k` in `add` carries, if any. */
  function LastValue(add: seq<Header>, k: string): Option<string>
    decreases |add|
  {
    if add == [] then None
    else if add[|add| - 1].0 == k then Some(add[|add| - 1].1)
    else LastValue(add[..|add| - 1], k)
  }

  /** The names in `ks` not in `existing`, once each, in the order they first occur. */
  function NewKeys(existing: seq<string>, ks: seq<string>): (r: seq<string>)
    ensures forall i :: 0 <= i < |r| ==> r[i] in ks && r[i] !in existing
    ensures forall k :: k in ks && k !in existing ==> k in r
    decreases |ks|
  {
    if ks == [] then []
    else
      var front := NewKeys(existing, ks[..|ks| - 1]);
      var k := ks[|ks| - 1];
      if k in existing || k in front then front else front + [k]
  }

  /**
   * `array_merge($h, $add)` for string keys: every entry of `add`, in order, is assigned into `h`.
   * What that means for lookups and for the order of names is stated by MergeGet and MergeKeys.
   */
  function Merge(h: HeaderMap, add: seq<Header>): HeaderMap
    decreases |add|
  {
    if add == [] then h
    else
      var last := add[|add| - 1];
      Put(Merge(h, add[..|add| - 1]), last.0, last.1)
  }

  /**
   * After a merge a name takes the last value `add` gives it, and keeps its old value when `add`
   * does not mention it.
   */
  lemma {:induction false} MergeGet(h: HeaderMap, add: seq<Header>, k: string)
    ensures Get(Merge(h, add), k) == if LastValue(add, k).Some? then LastValue(add, k) else Get(h, k)
    decreases |add|
  {
    if add != [] {
      var last := add[|add| - 1];
      MergeGet(h, add[..|add| - 1], k);
      PutGet(Merge(h, add[..|add| - 1]), last.0, last.1, k);
    }
  }

  /**
   * After a merge the names of `h` keep their positions, and the names new to `h` follow in the
   * order they first occur in `add`.
   */
  lemma {:induction false} MergeKeys(h: HeaderMap, add: seq<Header>)
    ensures Keys(Merge(h, add)) == Keys(h) + NewKeys(Keys(h), Keys(add))
    decreases |add|
  {
    if add != [] {
      var front := add[..|add| - 1];
      var last := add[|add| - 1];
      var m := Merge(h, front);
      MergeKeys(h, front);
      PutKeys(m, last.0, last.1);
      HasKeyIsKey(m, last.0);
      assert Keys(add)[..|add| - 1] == Keys(front);
    }
  }

  /** `array_merge` of two arrays: a name takes its value from `add` when `add` has it. */
  lemma MergeArrays(h: HeaderMap, add: HeaderMap, k: string)
    ensures Get(Merge(h, add), k) == if Get(add, k).Some? then Get(add, k) else Get(h, k)
  {
    MergeGet(h, add, k);
    LastValueUnique(add, k);
  }

  /** For an array `add` the last value of a name is its only value. */
  lemma {:induction false} LastValueUnique(add: HeaderMap, k: string)
    ensures LastValue(add, k) == Get(add, k)
    decreases |add|
  {
    if add != [] {
      var n := |add| - 1;
      var front := add[..n];
      if add[n].0 == k {
        GetAt(add, n);
      } else {
        LastValueUnique(front, k);
        GetFront(add, k);
      }
    }
  }

  /** A lookup of a name other than the last entry's is a lookup in the front. */
  lemma {:induction false} GetFront(h: seq<Header>, k: string)
    requires h != [] && h[|h| - 1].0 != k
    ensures Get(h, k) == Get(h[..|h| - 1], k)
    decreases |h|
  {
    if |h| > 1 && h[0].0 != k {
      assert h[1..][..|h| - 2] == h[..|h| - 1][1..];
      GetFront(h[1..], k);
    }
  }
}
