/** Binary search in a node's key array (utils.cpp). */
module Search {
  import opened Pages

  method IndexNodeLargerOrEqual(keys: array<Key>, size: nat, key: Key) returns (res: int)
    requires size <= keys.Length && Sorted(keys[..size])
    ensures res == if size == 0 then -1 else FirstGE(keys[..size], key)
  {
    if size == 0 {
      return -1;
    }
    var mid, left, right := 0, 0, size - 1;
    while left <= right
      invariant 0 <= left <= right + 1 <= size && 0 <= mid < size
      invariant forall j :: 0 <= j < left ==> keys[j] < key
      invariant forall j :: right < j < size ==> key < keys[j]
      invariant (left == 0 && right == size - 1) || (left == mid + 1 && keys[mid] < key) || (right == mid - 1 && key < keys[mid])
    {
      mid := (left + right) / 2;
      if keys[mid] == key {
        Unique(keys[..size], key, mid);
        return mid;
      }
      Below(keys[..size], mid);
      if keys[mid] < key {
        left := mid + 1;
      } else {
        right := mid - 1;
      }
    }
    res := if keys[mid] < key then mid + 1 else mid;
    Between(keys[..size], key, res);
  }

  method IndexNodeLarger(keys: array<Key>, size: nat, key: Key) returns (res: int)
    requires size <= keys.Length && Sorted(keys[..size])
    ensures res == if size == 0 then -1 else FirstGT(keys[..size], key)
  {
    if size == 0 {
      return -1;
    }
    var mid, left, right := 0, 0, size - 1;
    while left <= right
      invariant 0 <= left <= right + 1 <= size && 0 <= mid < size
      invariant forall j :: 0 <= j < left ==> keys[j] < key
      invariant forall j :: right < j < size ==> key < keys[j]
      invariant (left == 0 && right == size - 1) || (left == mid + 1 && keys[mid] < key) || (right == mid - 1 && key < keys[mid])
    {
      mid := (left + right) / 2;
      if keys[mid] == key {
        Unique(keys[..size], key, mid);
        return mid + 1;
      }
      Below(keys[..size], mid);
      if keys[mid] < key {
        left := mid + 1;
      } else {
        right := mid - 1;
      }
    }
    res := if keys[mid] < key then mid + 1 else mid;
    Between(keys[..size], key, res);
  }

  method IndexNodeEqual(keys: array<Key>, size: nat, key: Key) returns (res: int)
    requires size <= keys.Length && Sorted(keys[..size])
    ensures res == -1 <==> key !in keys[..size]
    ensures res != -1 ==> 0 <= res < size && keys[res] == key && res == FirstGE(keys[..size], key)
  {
    var i := IndexNodeLargerOrEqual(keys, size, key);
    res := if i == -1 || i >= size || keys[i] != key then -1 else i;
    Present(keys[..size], key);
  }

  method IsExisting(keys: array<Key>, size: nat, key: Key) returns (res: bool)
    requires size <= keys.Length && Sorted(keys[..size])
    ensures res == (key in keys[..size])
  {
    var i := IndexNodeEqual(keys, size, key);
    res := i != -1;
  }

  // ----- what the two indices mean on a sorted array -----

  lemma Below(s: seq<Key>, m: nat)
    requires Sorted(s) && m < |s|
    ensures forall j :: 0 <= j < m ==> s[j] < s[m]
    ensures forall j :: m < j < |s| ==> s[m] < s[j]
  {
  }

  // The position of a present key, and of an absent one, seen from either index.
  lemma Unique(s: seq<Key>, k: Key, i: nat)
    requires Sorted(s) && i < |s| && s[i] == k
    ensures FirstGE(s, k) == i && FirstGT(s, k) == i + 1
  {
  }

  lemma Between(s: seq<Key>, k: Key, i: nat)
    requires i <= |s| && (forall j :: 0 <= j < i ==> s[j] < k) && (forall j :: i <= j < |s| ==> k < s[j])
    ensures FirstGE(s, k) == i && FirstGT(s, k) == i
  {
    assert i < |s| ==> k < s[i];
  }

  lemma Present(s: seq<Key>, k: Key)
    requires Sorted(s)
    ensures k in s <==> FirstGE(s, k) < |s| && s[FirstGE(s, k)] == k
  {
    if k in s {
      var i :| 0 <= i < |s| && s[i] == k;
      Unique(s, k, i);
    }
  }

  // How many elements are below k, and how many are not above it.
  function CountBelow(s: seq<Key>, k: Key): nat {
    if s == [] then 0 else (if s[0] < k then 1 else 0) + CountBelow(s[1..], k)
  }

  function CountUpTo(s: seq<Key>, k: Key): nat {
    if s == [] then 0 else (if s[0] <= k then 1 else 0) + CountUpTo(s[1..], k)
  }

  lemma {:induction false} IndicesCount(s: seq<Key>, k: Key)
    requires Sorted(s)
    ensures FirstGE(s, k) == CountBelow(s, k) && FirstGT(s, k) == CountUpTo(s, k)
  {
    if s != [] {
      IndicesCount(s[1..], k);
      if k < s[0] {
        assert FirstGT(s[1..], k) == 0;
      }
      if k <= s[0] {
        assert FirstGE(s[1..], k) == 0;
      }
    }
  }

  // Routing by the second index picks the only child whose interval contains the key.
  lemma Routing(s: seq<Key>, k: Key, i: nat)
    requires Sorted(s) && i <= |s|
    ensures i == FirstGT(s, k) <==> (i == 0 || s[i - 1] <= k) && (i == |s| || k < s[i])
  {
  }
}
