/**
 * The three Python string built-ins the chatbot's lookups rely on, restricted
 * to what they do on ASCII text:
 *  - `s.lower()`, modelled as ASCII lower-casing (`Lower`),
 *  - `q in s`, the substring test (`Contains`),
 *  - `sep.join(items)` (`Join`).
 */
module PyStr {

  predicate IsUpper(c: char) {
    'A' <= c <= 'Z'
  }

  /** ASCII lower-casing of one character; every other character is kept. */
  function LowerChar(c: char): (r: char)
    ensures !IsUpper(r)
    ensures r == c || (IsUpper(c) && r as int == c as int + 32)
  {
    if IsUpper(c) then (c as int + 32) as char else c
  }

  /** `s.lower()` on ASCII: the same length, every character lower-cased. */
  function Lower(s: string): (r: string)
    ensures |r| == |s|
    ensures forall i :: 0 <= i < |s| ==> r[i] == LowerChar(s[i])
  {
    if s == [] then [] else [LowerChar(s[0])] + Lower(s[1..])
  }

  /** Lower-casing twice is lower-casing once. */
  lemma LowerIdempotent(s: string)
    ensures Lower(Lower(s)) == Lower(s)
  {
  }

  /** `a` and `b` are the same text up to ASCII letter case. */
  predicate EqualIgnoringCase(a: string, b: string) {
    |a| == |b| && forall i :: 0 <= i < |a| ==> LowerChar(a[i]) == LowerChar(b[i])
  }

  /** Two strings lower-case to the same string exactly when they differ only in letter case. */
  lemma LowerEqualIff(a: string, b: string)
    ensures Lower(a) == Lower(b) <==> EqualIgnoringCase(a, b)
  {
  }

  predicate StartsWith(s: string, p: string) {
    |p| <= |s| && s[..|p|] == p
  }

  /** Python's `q in s`: some window of `s` spells `q`; the empty `q` is in every `s`. */
  predicate Contains(s: string, q: string)
    ensures q == [] ==> Contains(s, q)
    ensures s == [] ==> (Contains(s, q) <==> q == [])
    decreases |s|
  {
    StartsWith(s, q) || (s != [] && Contains(s[1..], q))
  }

  /** `q` sits in `s` starting at position `i`. */
  ghost predicate OccursAt(s: string, q: string, i: int) {
    0 <= i && i + |q| <= |s| && s[i..i + |q|] == q
  }

  /** The scan `Contains` agrees with the positional definition of a substring. */
  lemma {:induction false} ContainsIff(s: string, q: string)
    ensures Contains(s, q) <==> exists i :: OccursAt(s, q, i)
    decreases |s|
  {
    if Contains(s, q) {
      if StartsWith(s, q) {
        assert OccursAt(s, q, 0);
      } else {
        ContainsIff(s[1..], q);
        var i :| OccursAt(s[1..], q, i);
        assert forall k :: 0 <= k < |q| ==> q[k] == s[i + 1 + k];
        assert OccursAt(s, q, i + 1);
      }
    }
    if i :| OccursAt(s, q, i) {
      if i == 0 {
        assert StartsWith(s, q);
      } else {
        ContainsIff(s[1..], q);
        assert forall k :: 0 <= k < |q| ==> q[k] == s[1..][i - 1 + k];
        assert OccursAt(s[1..], q, i - 1);
      }
    }
  }

  /** A string only contains strings no longer than itself. */
  lemma {:induction false} ContainsShorter(s: string, q: string)
    requires Contains(s, q)
    ensures |q| <= |s|
    decreases |s|
  {
    if !StartsWith(s, q) {
      ContainsShorter(s[1..], q);
    }
  }

  /** A window spelling `q` makes `q in s` true. */
  lemma OccursContains(s: string, q: string, i: int)
    requires OccursAt(s, q, i)
    ensures Contains(s, q)
  {
    ContainsIff(s, q);
  }

  /** If the first character of `q` appears nowhere in `s`, then `q` is not in `s`. */
  lemma {:induction false} MissingCharNotContains(s: string, q: string)
    requires q != [] && q[0] !in s
    ensures !Contains(s, q)
    decreases |s|
  {
    if s != [] {
      assert s[0] != q[0];
      assert q[0] !in s[1..] by {
        assert forall c :: c in s[1..] ==> c in s;
      }
      MissingCharNotContains(s[1..], q);
    }
  }

  /** Python's `sep.join(items)`: the items in order, `sep` between neighbours. */
  function Join(items: seq<string>, sep: string): (r: string)
    ensures |items| == 1 ==> r == items[0]
    ensures |items| > 0 ==> StartsWith(r, items[0])
  {
    if |items| == 0 then ""
    else if |items| == 1 then items[0]
    else items[0] + sep + Join(items[1..], sep)
  }

  /** Appending an item to a non-empty list appends `sep` and that item to the joined text. */
  lemma {:induction false} JoinSnoc(items: seq<string>, x: string, sep: string)
    requires |items| > 0
    ensures Join(items + [x], sep) == Join(items, sep) + sep + x
    decreases |items|
  {
    if |items| > 1 {
      assert (items + [x])[1..] == items[1..] + [x];
      JoinSnoc(items[1..], x, sep);
    } else {
      assert items + [x] == [items[0], x];
    }
  }
}
