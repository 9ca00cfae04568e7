/**
 * `CatExtension`: string concatenation by placeholder substitution. Its
 * output is the format string in which, for `i = 0, 1, ...` in turn, every
 * occurrence of the tag `{i}` in the running string is replaced by the text
 * of item `i`.
 *
 * Items are taken as already resolved: `Some(text)` is the item's
 * `ToString()`, `None` an item that is (or resolves to) `null`. How a nested
 * extension among the items is resolved (`IsConnected`, `FormatOutput`,
 * `GetValue`) is not part of this model.
 */
module CatExtension {
  import opened Wrappers

  // ---------------------------------------------------------------------
  // Strings
  // ---------------------------------------------------------------------

  /** The decimal digit for `d < 10`. */
  function Digit(d: nat): char
    requires d < 10
  {
    "0123456789"[d]
  }

  /** The number a string of decimal digits denotes, most significant first. */
  function Val(s: string): int {
    if s == [] then 0 else 10 * Val(s[..|s| - 1]) + (s[|s| - 1] as int - '0' as int)
  }

  /** `n.ToString()` for a non-negative `int`: its decimal digits, without sign or separators. */
  function NatToString(n: nat): (r: string)
    ensures |r| > 0
    ensures forall k :: 0 <= k < |r| ==> '0' <= r[k] <= '9'
  {
    if n < 10 then [Digit(n)] else NatToString(n / 10) + [Digit(n % 10)]
  }

  /** The digits `NatToString` writes denote the number. */
  lemma {:induction false} NatToStringVal(n: nat)
    ensures Val(NatToString(n)) == n
  {
    if n < 10 {
      assert NatToString(n)[..0] == [];
    } else {
      var a := NatToString(n / 10);
      NatToStringVal(n / 10);
      assert (a + [Digit(n % 10)])[..|a|] == a;
    }
  }

  /** Distinct numbers have distinct decimal texts. */
  lemma NatToStringInjective(i: nat, j: nat)
    ensures NatToString(i) == NatToString(j) <==> i == j
  {
    NatToStringVal(i);
    NatToStringVal(j);
  }

  /** The tag `"{" + i + "}"`. */
  function Tag(i: nat): (r: string)
    ensures |r| >= 3 && r[0] == '{' && r[|r| - 1] == '}'
    ensures forall k :: 0 < k < |r| - 1 ==> '0' <= r[k] <= '9'
  {
    "{" + NatToString(i) + "}"
  }

  /** Every index has its own tag. */
  lemma TagInjective(i: nat, j: nat)
    ensures Tag(i) == Tag(j) <==> i == j
  {
    if Tag(i) == Tag(j) {
      assert NatToString(i) == Tag(i)[1..|Tag(i)| - 1];
      assert NatToString(j) == Tag(j)[1..|Tag(j)| - 1];
      NatToStringInjective(i, j);
    }
  }

  /** `s.Contains(t)`: ordinal search for `t` in `s`. */
  predicate Contains(s: string, t: string) {
    |t| <= |s| && (s[..|t|] == t || Contains(s[1..], t))
  }

  /** `t` occurs in `s` at position `k`. */
  predicate OccursAt(s: string, t: string, k: int) {
    0 <= k <= |s| - |t| && s[k..k + |t|] == t
  }

  /** `Contains` finds exactly the positions at which `t` occurs. */
  lemma {:induction false} ContainsSpec(s: string, t: string)
    ensures Contains(s, t) <==> exists k :: OccursAt(s, t, k)
  {
    if |t| <= |s| {
      if s[..|t|] == t {
        assert OccursAt(s, t, 0);
      } else {
        ContainsSpec(s[1..], t);
        if exists k :: OccursAt(s, t, k) {
          var k :| OccursAt(s, t, k);
          assert k != 0;
          assert OccursAt(s[1..], t, k - 1) by {
            assert s[1..][k - 1..k - 1 + |t|] == s[k..k + |t|];
          }
        }
        if Contains(s[1..], t) {
          var k :| OccursAt(s[1..], t, k);
          assert OccursAt(s, t, k + 1) by {
            assert s[1..][k..k + |t|] == s[k + 1..k + 1 + |t|];
          }
        }
      }
    }
  }

  /**
   * `s.Replace(oldValue, newValue)`: scans `s` from left to right and
   * replaces each occurrence of `oldValue` that does not overlap an earlier
   * replaced one; the inserted text is not scanned again.
   */
  function Replace(s: string, oldValue: string, newValue: string): string
    requires |oldValue| > 0
    decreases |s|
  {
    if |s| < |oldValue| then s
    else if s[..|oldValue|] == oldValue then newValue + Replace(s[|oldValue|..], oldValue, newValue)
    else [s[0]] + Replace(s[1..], oldValue, newValue)
  }

  /** Replacing a string that does not occur changes nothing. */
  lemma {:induction false} ReplaceAbsent(s: string, oldValue: string, newValue: string)
    requires |oldValue| > 0 && !Contains(s, oldValue)
    ensures Replace(s, oldValue, newValue) == s
  {
    if |s| >= |oldValue| {
      ReplaceAbsent(s[1..], oldValue, newValue);
      assert s == [s[0]] + s[1..];
    }
  }

  /** Replacing a string by itself changes nothing. */
  lemma {:induction false} ReplaceBySelf(s: string, oldValue: string)
    requires |oldValue| > 0
    ensures Replace(s, oldValue, oldValue) == s
  {
    if |s| >= |oldValue| {
      if s[..|oldValue|] == oldValue {
        ReplaceBySelf(s[|oldValue|..], oldValue);
        assert s == s[..|oldValue|] + s[|oldValue|..];
      } else {
        ReplaceBySelf(s[1..], oldValue);
        assert s == [s[0]] + s[1..];
      }
    }
  }

  /** Text in which `oldValue` starts nowhere before position `n` is copied up to `n`. */
  lemma {:induction false} ReplaceSkips(s: string, oldValue: string, newValue: string, n: nat)
    requires |oldValue| > 0 && n <= |s|
    requires forall k :: 0 <= k < n ==> !OccursAt(s, oldValue, k)
    ensures Replace(s, oldValue, newValue) == s[..n] + Replace(s[n..], oldValue, newValue)
  {
    if n == 0 {
      assert s[..0] == [] && s[0..] == s;
    } else if |s| < |oldValue| {
      ReplaceAbsentShort(s[n..], oldValue, newValue);
      assert s == s[..n] + s[n..];
    } else {
      ReplaceNoMatchAtStart(s, oldValue, newValue);
      NoOccurrenceShift(s, oldValue, n);
      ReplaceSkips(s[1..], oldValue, newValue, n - 1);
      assert s[1..][n - 1..] == s[n..];
      assert [s[0]] + s[1..][..n - 1] == s[..n];
    }
  }

  /** Without an occurrence at position 0, `Replace` copies the first character. */
  lemma ReplaceNoMatchAtStart(s: string, oldValue: string, newValue: string)
    requires 0 < |oldValue| <= |s| && !OccursAt(s, oldValue, 0)
    ensures Replace(s, oldValue, newValue) == [s[0]] + Replace(s[1..], oldValue, newValue)
  {
    assert s[0..0 + |oldValue|] == s[..|oldValue|];
  }

  /** No occurrence before `n` in `s` means none before `n - 1` in `s[1..]`. */
  lemma NoOccurrenceShift(s: string, oldValue: string, n: nat)
    requires 0 < n <= |s|
    requires forall k :: 0 <= k < n ==> !OccursAt(s, oldValue, k)
    ensures forall k :: 0 <= k < n - 1 ==> !OccursAt(s[1..], oldValue, k)
  {
    forall k | 0 <= k < n - 1
      ensures !OccursAt(s[1..], oldValue, k)
    {
      assert !OccursAt(s, oldValue, k + 1);
      if k <= |s[1..]| - |oldValue| {
        assert s[1..][k..k + |oldValue|] == s[k + 1..k + 1 + |oldValue|];
      }
    }
  }

  /** A string shorter than `oldValue` is left as it is. */
  lemma ReplaceAbsentShort(s: string, oldValue: string, newValue: string)
    requires 0 < |oldValue| && |s| < |oldValue|
    ensures Replace(s, oldValue, newValue) == s
  {
  }

  /**
   * At the first position where `oldValue` occurs, `Replace` keeps the text
   * before it, puts `newValue` in its place and goes on after the
   * occurrence: every occurrence left of the scan is replaced, left to right.
   */
  lemma ReplaceFirstMatch(s: string, oldValue: string, newValue: string, n: nat)
    requires |oldValue| > 0 && OccursAt(s, oldValue, n)
    requires forall k :: 0 <= k < n ==> !OccursAt(s, oldValue, k)
    ensures Replace(s, oldValue, newValue) == s[..n] + newValue + Replace(s[n + |oldValue|..], oldValue, newValue)
  {
    ReplaceSkips(s, oldValue, newValue, n);
    var rest := s[n..];
    assert |rest| >= |oldValue|;
    assert rest[..|oldValue|] == s[n..n + |oldValue|];
    assert rest[|oldValue|..] == s[n + |oldValue|..];
    assert Replace(rest, oldValue, newValue) == newValue + Replace(s[n + |oldValue|..], oldValue, newValue);
  }

  // ---------------------------------------------------------------------
  // Tags do not overlap
  // ---------------------------------------------------------------------

  /** `Contains` is preserved by putting text in front. */
  lemma ContainsPrepend(a: string, x: string, u: string)
    requires Contains(x, u)
    ensures Contains(a + x, u)
  {
    ContainsSpec(x, u);
    var k :| OccursAt(x, u, k);
    assert (a + x)[|a| + k..|a| + k + |u|] == x[k..k + |u|];
    assert OccursAt(a + x, u, |a| + k);
    ContainsSpec(a + x, u);
  }

  /** An occurrence at or after `d` is an occurrence in `s[d..]`. */
  lemma OccursInSuffix(s: string, u: string, p: int, d: nat)
    requires OccursAt(s, u, p) && d <= p
    ensures OccursAt(s[d..], u, p - d)
  {
    assert s[d..][p - d..p - d + |u|] == s[p..p + |u|];
  }

  /** Two tags that start at the same position are the same tag. */
  lemma TagsAtSamePosition(s: string, i: nat, j: nat, p: int)
    requires OccursAt(s, Tag(i), p) && OccursAt(s, Tag(j), p)
    ensures i == j
  {
    var a, b := Tag(i), Tag(j);
    forall k | 0 <= k < |a| && k < |b| ensures a[k] == b[k] {
      assert s[p..p + |a|][k] == s[p + k] == s[p..p + |b|][k];
    }
    assert |a| == |b|;
    assert a == b;
    TagInjective(i, j);
  }

  /** A tag occurrence opens with `{` and holds no other `{`. */
  lemma TagOpensOnce(s: string, i: nat, q: int)
    requires OccursAt(s, Tag(i), q)
    ensures s[q] == '{'
    ensures forall k :: q < k < q + |Tag(i)| ==> s[k] != '{'
  {
    var t := Tag(i);
    assert s[q..q + |t|][0] == s[q];
    forall k | q < k < q + |t| ensures s[k] != '{' {
      assert s[q..q + |t|][k - q] == s[k];
    }
  }

  /**
   * Occurrences of two different tags never overlap: a tag opens with the
   * only `{` it holds.
   */
  lemma TagsDisjoint(s: string, i: nat, j: nat, q: int, p: int)
    requires i != j && OccursAt(s, Tag(i), q) && OccursAt(s, Tag(j), p)
    ensures q + |Tag(i)| <= p || p + |Tag(j)| <= q
  {
    if q == p {
      TagsAtSamePosition(s, i, j, p);
      assert false;
    }
    TagOpensOnce(s, i, q);
    TagOpensOnce(s, j, p);
  }

  /** Replacing one tag keeps each occurrence of a different tag findable. */
  lemma {:induction false} ReplaceKeepsTagAt(s: string, i: nat, j: nat, v: string, p: int)
    requires i != j && OccursAt(s, Tag(j), p)
    ensures Contains(Replace(s, Tag(i), v), Tag(j))
    decreases |s|
  {
    var t, u := Tag(i), Tag(j);
    if |s| < |t| {
      ContainsSpec(s, u);
    } else if s[..|t|] == t {
      assert OccursAt(s, t, 0) by { assert s[0..|t|] == s[..|t|]; }
      TagsDisjoint(s, i, j, 0, p);
      OccursInSuffix(s, u, p, |t|);
      ReplaceKeepsTagAt(s[|t|..], i, j, v, p - |t|);
      ContainsPrepend(v, Replace(s[|t|..], t, v), u);
    } else if p == 0 {
      forall k | 0 <= k < |u| ensures !OccursAt(s, t, k) {
        if k == 0 {
          assert s[0..|t|] == s[..|t|];
        } else {
          assert s[..|u|][k] == s[k];
          assert k + |t| <= |s| ==> s[k..k + |t|][0] == s[k];
        }
      }
      ReplaceSkips(s, t, v, |u|);
      var r := Replace(s, t, v);
      assert r[..|u|] == s[..|u|];
      assert OccursAt(r, u, 0) by { assert r[0..|u|] == r[..|u|]; }
      ContainsSpec(r, u);
    } else {
      OccursInSuffix(s, u, p, 1);
      ReplaceKeepsTagAt(s[1..], i, j, v, p - 1);
      ContainsPrepend([s[0]], Replace(s[1..], t, v), u);
    }
  }

  /** Substituting tag `{i}` keeps every occurrence of another tag `{j}`. */
  lemma ReplaceKeepsOtherTag(s: string, i: nat, j: nat, v: string)
    requires i != j && Contains(s, Tag(j))
    ensures Contains(Replace(s, Tag(i), v), Tag(j))
  {
    ContainsSpec(s, Tag(j));
    var p :| OccursAt(s, Tag(j), p);
    ReplaceKeepsTagAt(s, i, j, v, p);
  }

  // ---------------------------------------------------------------------
  // FormatOutput
  // ---------------------------------------------------------------------

  /** One iteration of the loop: substitutes item `i` when its tag occurs and the item is not `null`. */
  function Step(s: string, i: nat, item: Option<string>): string {
    if Contains(s, Tag(i)) && item.Some? then Replace(s, Tag(i), item.value) else s
  }

  /** The running string after the first `n` iterations. */
  function Run(format: string, items: seq<Option<string>>, n: nat): string
    requires n <= |items|
  {
    if n == 0 then format else Step(Run(format, items, n - 1), n - 1, items[n - 1])
  }

  /** The indices, in order, whose tag occurs in the running string when their iteration comes. */
  function Consulted(format: string, items: seq<Option<string>>, n: nat): seq<nat>
    requires n <= |items|
  {
    if n == 0 then []
    else if Contains(Run(format, items, n - 1), Tag(n - 1)) then Consulted(format, items, n - 1) + [n - 1]
    else Consulted(format, items, n - 1)
  }

  /** `Consulted` lists indices below `n` in strictly increasing order. */
  lemma {:induction false} ConsultedSorted(format: string, items: seq<Option<string>>, n: nat)
    requires n <= |items|
    ensures forall j :: 0 <= j < |Consulted(format, items, n)| ==> Consulted(format, items, n)[j] < n
    ensures forall j, m :: 0 <= j < m < |Consulted(format, items, n)| ==>
      Consulted(format, items, n)[j] < Consulted(format, items, n)[m]
  {
    if n > 0 {
      ConsultedSorted(format, items, n - 1);
    }
  }

  /** `Consulted` holds exactly the indices below `n` whose tag occurs at their own iteration. */
  lemma {:induction false} ConsultedExactly(format: string, items: seq<Option<string>>, n: nat, k: nat)
    requires n <= |items|
    ensures k in Consulted(format, items, n) <==> k < n && Contains(Run(format, items, k), Tag(k))
  {
    if n > 0 {
      ConsultedExactly(format, items, n - 1, k);
      ConsultedSorted(format, items, n - 1);
    }
  }

  /** The output of `FormatOutput`: `null` for a `null` format, else the string after every iteration. */
  function Output(format: Option<string>, items: seq<Option<string>>): Option<string> {
    if format.None? then None else Some(Run(format.value, items, |items|))
  }

  /** With no items the output is the format string itself. */
  lemma NoItemsKeepFormat(format: string)
    ensures Output(Some(format), []) == Some(format)
  {
  }

  /** Items that are all `null` leave the format string as it is, tags included. */
  lemma {:induction false} NullItemsKeepFormat(format: string, items: seq<Option<string>>, n: nat)
    requires n <= |items|
    requires forall i :: 0 <= i < |items| ==> items[i].None?
    ensures Run(format, items, n) == format
  {
    if n > 0 {
      NullItemsKeepFormat(format, items, n - 1);
    }
  }

  /**
   * An item consulted by no iteration does not matter: when tag `{k}` is
   * absent from the running string at iteration `k`, any other value of
   * item `k` gives the same running string from then on.
   */
  lemma {:induction false} UnconsultedItemIrrelevant(format: string, items: seq<Option<string>>, k: nat,
                                                      other: Option<string>, n: nat)
    requires k < |items| && n <= |items|
    requires !Contains(Run(format, items, k), Tag(k))
    ensures Run(format, items[k := other], n) == Run(format, items, n)
  {
    if n > 0 {
      UnconsultedItemIrrelevant(format, items, k, other, n - 1);
    } else {
      assert Run(format, items[k := other], 0) == format;
    }
    if n > 0 && n - 1 < k {
      assert items[k := other][n - 1] == items[n - 1];
    }
    if n > k + 1 {
      assert items[k := other][n - 1] == items[n - 1];
    }
    if n == k + 1 {
      PrefixRunUnchanged(format, items, k, other, k);
    }
  }

  /** Changing item `k` does not change the first `n <= k` iterations. */
  lemma {:induction false} PrefixRunUnchanged(format: string, items: seq<Option<string>>, k: nat,
                                               other: Option<string>, n: nat)
    requires k < |items| && n <= k
    ensures Run(format, items[k := other], n) == Run(format, items, n)
  {
    if n > 0 {
      PrefixRunUnchanged(format, items, k, other, n - 1);
      assert items[k := other][n - 1] == items[n - 1];
    }
  }

  /**
   * A tag `{j}` in the running string after `m` iterations is still there
   * after `n`, as long as no iteration in between substitutes item `j`.
   */
  lemma {:induction false} RunKeepsTag(format: string, items: seq<Option<string>>, j: nat, m: nat, n: nat)
    requires m <= n <= |items|
    requires Contains(Run(format, items, m), Tag(j))
    requires forall l :: m <= l < n && l == j ==> items[l].None?
    ensures Contains(Run(format, items, n), Tag(j))
  {
    if n > m {
      RunKeepsTag(format, items, j, m, n - 1);
      var s := Run(format, items, n - 1);
      if n - 1 != j && Contains(s, Tag(n - 1)) && items[n - 1].Some? {
        ReplaceKeepsOtherTag(s, n - 1, j, items[n - 1].value);
      }
    }
  }

  /** A tag whose index is not below the item count is left in the output. */
  lemma HighTagsUntouched(format: string, items: seq<Option<string>>, j: nat)
    requires j >= |items| && Contains(format, Tag(j))
    ensures Contains(Run(format, items, |items|), Tag(j))
  {
    RunKeepsTag(format, items, j, 0, |items|);
  }

  /** A tag whose item is `null` stays in the output once it is in the running string at its iteration. */
  lemma NullItemTagKept(format: string, items: seq<Option<string>>, k: nat)
    requires k < |items| && items[k].None?
    requires Contains(Run(format, items, k), Tag(k))
    ensures Contains(Run(format, items, |items|), Tag(k))
  {
    RunKeepsTag(format, items, k, k, |items|);
  }

  /**
   * Text that iteration `i` brings in holding the tag of a later item `j` is
   * looked at when item `j`'s iteration comes.
   */
  lemma InsertedTagConsultedLater(format: string, items: seq<Option<string>>, i: nat, j: nat)
    requires i < j < |items|
    requires Contains(Run(format, items, i + 1), Tag(j))
    ensures j in Consulted(format, items, |items|)
  {
    RunKeepsTag(format, items, j, i + 1, j);
    ConsultedExactly(format, items, |items|, j);
  }

  /**
   * Text substituted for item `i` is scanned by the later iterations: with
   * format `"{0}"`, item 0 `"{1}"` and item 1 `"x"`, the output is `"x"`.
   */
  lemma ChainedSubstitution()
    ensures Output(Some("{0}"), [Some("{1}"), Some("x")]) == Some("x")
  {
    assert Tag(0) == "{0}";
    assert Tag(1) == "{1}";
    assert Contains("{0}", "{0}") by { assert "{0}"[..3] == "{0}"; }
    assert Replace("{0}", "{0}", "{1}") == "{1}" by {
      assert "{0}"[..3] == "{0}";
      assert "{0}"[3..] == "";
    }
    assert Run("{0}", [Some("{1}"), Some("x")], 1) == "{1}";
    assert Contains("{1}", "{1}") by { assert "{1}"[..3] == "{1}"; }
    assert Replace("{1}", "{1}", "x") == "x" by {
      assert "{1}"[..3] == "{1}";
      assert "{1}"[3..] == "";
    }
  }

  /** The extension's state that `FormatOutput` and the `Format` setter use. */
  class CatExtension {
    /** `format`: the format string, `""` initially; `None` is `null`. */
    var format: Option<string>
    /** The items, each as it resolves. */
    var items: seq<Option<string>>

    constructor ()
      ensures format == Some("") && items == []
    {
      format := Some("");
      items := [];
    }

    /**
     * `FormatOutput`: `null` for a `null` format; otherwise substitutes the
     * items in index order into the running string. Also returns the indices
     * of the items it looked at, in order.
     */
    method FormatOutput() returns (r: Option<string>, consulted: seq<nat>)
      ensures r == Output(format, items)
      ensures consulted == if format.None? then [] else Consulted(format.value, items, |items|)
    {
      consulted := [];
      if format.None? {
        return None, consulted;
      }
      var s := format.value;
      var i := 0;
      while i < |items|
        invariant 0 <= i <= |items|
        invariant s == Run(format.value, items, i)
        invariant consulted == Consulted(format.value, items, i)
      {
        var tag := "{" + NatToString(i) + "}";
        assert tag == Tag(i);
        if Contains(s, tag) {
          consulted := consulted + [i];
          var t := items[i];
          if t.Some? {
            s := Replace(s, tag, t.value);
          }
        }
        i := i + 1;
      }
      return Some(s), consulted;
    }

    /** The `Format` setter: stores the value and asks for an update only when it differs. */
    method SetFormat(value: Option<string>) returns (updated: bool)
      modifies this
      ensures format == value && items == old(items)
      ensures updated <==> old(format) != value
    {
      updated := false;
      if format != value {
        format := value;
        updated := true;
      }
    }
  }
}
