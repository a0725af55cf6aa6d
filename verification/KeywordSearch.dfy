/** Looking up an identifier in the sorted keyword table. */
module KeywordSearch {
  /** The sign of the comparison of two strings, code unit by code unit. */
  function Compare(a: string, b: string): (r: int)
    ensures r == 0 <==> a == b
  {
    if a == [] then (if b == [] then 0 else -1)
    else if b == [] then 1
    else if a[0] != b[0] then (if a[0] < b[0] then -1 else 1)
    else
      assert a == [a[0]] + a[1..] && b == [b[0]] + b[1..];
      Compare(a[1..], b[1..])
  }

  predicate Less(a: string, b: string) {
    Compare(a, b) < 0
  }

  lemma {:induction false} CompareFlips(a: string, b: string)
    ensures Compare(a, b) < 0 <==> Compare(b, a) > 0
    decreases |a|
  {
    if a != [] && b != [] && a[0] == b[0] {
      CompareFlips(a[1..], b[1..]);
    }
  }

  lemma {:induction false} LessIsTransitive(a: string, b: string, c: string)
    requires Less(a, b) && Less(b, c)
    ensures Less(a, c)
    decreases |a|
  {
    if a != [] && a[0] == b[0] == c[0] {
      LessIsTransitive(a[1..], b[1..], c[1..]);
    }
  }

  ghost predicate StrictlySorted(table: seq<string>) {
    forall i, j :: 0 <= i < j < |table| ==> Less(table[i], table[j])
  }

  /** The search does not return when it hits: it goes on with the entries before the hit. Still `hits`, the positions
      at which the token is made a keyword, has the position of the identifier exactly once, and no other. */
  method FindKeyword(str: string, table: seq<string>) returns (hits: seq<nat>)
    requires table != [] && StrictlySorted(table)
    ensures forall k :: 0 <= k < |table| ==> (table[k] == str <==> hits == [k])
    ensures str !in table <==> hits == []
  {
    hits := [];
    var start, end := 0, |table|;
    var middle := end / 2;
    while true
      invariant 0 <= start <= middle < end <= |table|
      invariant forall k :: 0 <= k < start ==> Less(table[k], str)
      invariant hits == [] ==> forall k :: end <= k < |table| ==> Less(str, table[k])
      invariant hits != [] ==> end < |table| && hits == [end] && table[end] == str
      decreases end - start
    {
      var relation := Compare(str, table[middle]);
      if relation == 0 {
        hits := hits + [middle];
      }
      SearchStep(str, table, middle);
      if relation > 0 {
        start := middle + 1;
      } else {
        end := middle;
      }
      middle := (start + end) / 2;
      if start >= end {
        break;
      }
    }
    forall k | 0 <= k < |table| ensures table[k] == str <==> hits == [k] {
      CompareFlips(table[k], str);
      if hits != [] && k != hits[0] {
        assert Less(table[if k < hits[0] then k else hits[0]], table[if k < hits[0] then hits[0] else k]);
      }
    }
  }

  lemma SearchStep(str: string, table: seq<string>, middle: nat)
    requires StrictlySorted(table) && middle < |table|
    ensures Less(table[middle], str) ==> forall k :: 0 <= k < middle ==> Less(table[k], str)
    ensures !Less(str, table[middle]) ==> Less(table[middle], str) || table[middle] == str
    ensures Less(table[middle], str) <==> Compare(str, table[middle]) > 0
    ensures !Less(table[middle], str) ==> forall k :: middle < k < |table| ==> Less(str, table[k])
  {
    CompareFlips(table[middle], str);
    CompareFlips(str, table[middle]);
    if Less(table[middle], str) {
      forall k | 0 <= k < middle ensures Less(table[k], str) {
        LessIsTransitive(table[k], table[middle], str);
      }
    } else {
      forall k | middle < k < |table| ensures Less(str, table[k]) {
        if str != table[middle] {
          LessIsTransitive(str, table[middle], table[k]);
        }
      }
    }
  }

  /** Equal up to `k`, where `a` ends or has the smaller code unit. */
  predicate LessFrom(a: string, b: string, k: nat) {
    && k <= |a| && k < |b| && a[..k] == b[..k]
    && (k == |a| || a[k] < b[k])
  }

  /** The comparison is the order of the dictionary. */
  lemma {:induction false} LessIs(a: string, b: string)
    ensures Less(a, b) <==> exists k :: LessFrom(a, b, k)
    decreases |a|
  {
    if a == [] || b == [] || a[0] != b[0] {
      assert LessFrom(a, b, 0) <==> b != [] && (a == [] || a[0] < b[0]);
      if k: nat :| LessFrom(a, b, k) {
        assert k > 0 ==> a[..k][0] == b[..k][0];
      }
    } else {
      LessIs(a[1..], b[1..]);
      if k: nat :| LessFrom(a[1..], b[1..], k) {
        assert a[..k + 1] == [a[0]] + a[1..][..k] && b[..k + 1] == [b[0]] + b[1..][..k];
        assert LessFrom(a, b, k + 1);
      }
      if k: nat :| LessFrom(a, b, k) {
        assert k > 0;
        assert a[1..][..k - 1] == a[..k][1..] && b[1..][..k - 1] == b[..k][1..];
        assert LessFrom(a[1..], b[1..], k - 1);
      }
    }
  }
}
