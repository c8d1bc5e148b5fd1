/**
  What the source's pre-pass promises about repeated keys and repeated
  array elements, stated on the token stream it reads.
 */
module DuplicateCheckProperties {
  import opened DuplicateCheck
  import opened JsonDocument
  import Fixed = DuplicateCheckFixed
  import Findings = DuplicateCheckFindings

  /** The `%v` texts of a run of tokens. */
  function Renders(xs: seq<Token>): set<string>
  {
    set i | 0 <= i < |xs| :: Render(xs[i])
  }

  predicate RendersDistinct(xs: seq<Token>)
  {
    forall i, k :: 0 <= i < k < |xs| ==> Render(xs[i]) != Render(xs[k])
  }

  /** Element k is the first one that prints like an earlier element. */
  predicate FirstRepeat(xs: seq<Token>, k: int)
  {
    && 0 <= k < |xs|
    && (exists i :: 0 <= i < k && Render(xs[i]) == Render(xs[k]))
    && RendersDistinct(xs[..k])
  }

  /**
    An array of scalars passes exactly when no two of its elements print
    alike; otherwise the error names the first element that repeats an
    earlier one, by its text and index. Elements are compared only by their
    printed form, so the number 1 and the string "1" count as equal.
   */
  lemma ScalarArrayVerdict(xs: seq<Token>, rest: seq<Token>, path: seq<string>)
    requires forall i :: 0 <= i < |xs| ==> IsScalar(xs[i])
    ensures RendersDistinct(xs) ==> CheckDuplicatesInJSON([BeginArr] + xs + [EndArr] + rest, path) == Done(rest)
    ensures !RendersDistinct(xs) ==> exists k :: (FirstRepeat(xs, k)
      && CheckDuplicatesInJSON([BeginArr] + xs + [EndArr] + rest, path) == Failed(DuplicateValue(Render(xs[k]), k, path)))
  {
    assert ([BeginArr] + xs + [EndArr] + rest)[1..] == xs[0..] + [EndArr] + rest;
    assert Renders(xs[..0]) == {};
    ScalarArrayLoop(xs, 0, rest, path);
  }

  lemma {:induction false} ScalarArrayLoop(xs: seq<Token>, n: nat, rest: seq<Token>, path: seq<string>)
    requires forall i :: 0 <= i < |xs| ==> IsScalar(xs[i])
    requires n <= |xs| && RendersDistinct(xs[..n])
    ensures RendersDistinct(xs) ==> CheckArray(xs[n..] + [EndArr] + rest, path, Renders(xs[..n]), n) == Done(rest)
    ensures !RendersDistinct(xs) ==> exists k :: (n <= k && FirstRepeat(xs, k)
      && CheckArray(xs[n..] + [EndArr] + rest, path, Renders(xs[..n]), n) == Failed(DuplicateValue(Render(xs[k]), k, path)))
    decreases |xs| - n
  {
    var ts := xs[n..] + [EndArr] + rest;
    if n == |xs| {
      assert ts == [EndArr] + rest;
      assert xs[..n] == xs;
    } else {
      var shown := Render(xs[n]);
      assert ts[0] == xs[n];
      assert ts[1..] == xs[n + 1..] + [EndArr] + rest;
      if shown in Renders(xs[..n]) {
        var i :| 0 <= i < n && Render(xs[..n][i]) == shown;
        assert Render(xs[i]) == Render(xs[n]);
        assert FirstRepeat(xs, n);
      } else {
        RendersGrow(xs, n);
        ScalarArrayLoop(xs, n + 1, rest, path);
      }
    }
  }

  /** One more element not printed before keeps the prefix's texts distinct and adds its own. */
  lemma RendersGrow(xs: seq<Token>, n: nat)
    requires n < |xs| && RendersDistinct(xs[..n]) && Render(xs[n]) !in Renders(xs[..n])
    ensures Renders(xs[..n + 1]) == Renders(xs[..n]) + {Render(xs[n])}
    ensures RendersDistinct(xs[..n + 1])
  {
    assert xs[..n + 1] == xs[..n] + [xs[n]];
    var ys := xs[..n + 1];
    forall i, k | 0 <= i < k < |ys|
      ensures Render(ys[i]) != Render(ys[k])
    {
      if k == n {
        assert Render(xs[..n][i]) in Renders(xs[..n]);
      } else {
        assert xs[..n][i] == xs[i] && xs[..n][k] == xs[k];
      }
    }
  }

  /**
    A key met a second time in one object is reported as soon as it is read,
    with the object's path followed by the key: whatever follows the repeated
    key is never looked at. The members before it are assumed clean, and
    their arrays scalar-only, so that the check reaches the key at all.
   */
  lemma RepeatedKeyReportedAtKey(ms: seq<Member>, k: string, tail: seq<Token>, path: seq<string>)
    requires forall i :: 0 <= i < |ms| ==> FlatArrays(ms[i].value)
    requires Fixed.MembersOk(ms, {})
    requires exists i :: 0 <= i < |ms| && ms[i].key == k
    ensures CheckDuplicatesInJSON([BeginObj] + MemberTokens(ms) + [Str(k)] + tail, path) == Failed(DuplicateKey(path + [k]))
  {
    assert ([BeginObj] + MemberTokens(ms) + [Str(k)] + tail)[1..] == MemberTokens(ms) + ([Str(k)] + tail);
    KeyLoop(ms, {}, k, [Str(k)] + tail, path);
  }

  lemma {:induction false} KeyLoop(ms: seq<Member>, keys: set<string>, k: string, after: seq<Token>, path: seq<string>)
    requires forall i :: 0 <= i < |ms| ==> FlatArrays(ms[i].value)
    requires Fixed.MembersOk(ms, keys)
    requires k in keys || exists i :: 0 <= i < |ms| && ms[i].key == k
    requires |after| > 0 && after[0] == Str(k)
    ensures CheckObject(MemberTokens(ms) + after, path, keys) == Failed(DuplicateKey(path + [k]))
    decreases ms
  {
    if |ms| == 0 {
      assert MemberTokens(ms) + after == after;
    } else {
      var k0 := ms[0].key;
      CleanMemberStep(ms, keys, after, path);
      Fixed.MembersOkStep(ms, keys);
      if k != k0 && k !in keys {
        var i :| 0 <= i < |ms| && ms[i].key == k;
        assert ms[1..][i - 1].key == k;
      }
      KeyLoop(ms[1..], keys + {k0}, k, after, path);
    }
  }

  /** The object loop passes over a fresh key whose value is clean and flat, and goes on with the key remembered. */
  lemma CleanMemberStep(ms: seq<Member>, keys: set<string>, after: seq<Token>, path: seq<string>)
    requires |ms| > 0 && FlatArrays(ms[0].value)
    requires ms[0].key !in keys && !HasDuplicate(ms[0].value)
    ensures CheckObject(MemberTokens(ms) + after, path, keys)
         == CheckObject(MemberTokens(ms[1..]) + after, path, keys + {ms[0].key})
  {
    var k0, v := ms[0].key, ms[0].value;
    var next := MemberTokens(ms[1..]) + after;
    var ts := MemberTokens(ms) + after;
    assert ts == [Str(k0)] + (Tokens(v) + next);
    assert ts[1..] == Tokens(v) + next;
    Findings.AgreesOnFlatArrays(v, next, path + [k0]);
    assert CheckDuplicatesInJSON(ts[1..], path + [k0]) == Done(next);
    assert More(ts) && ts[0] == Str(k0);
  }

  /** Keys and array elements are remembered apart: key `"1"` holding the array `["1"]` repeats nothing. */
  lemma KeysAndValuesApart()
    ensures CheckDuplicatesInJSON([BeginObj, Str("1"), BeginArr, Str("1"), EndArr, EndObj], []) == Done([])
  {
    assert CheckArray([Str("1"), EndArr, EndObj], ["1"], {}, 0) == Done([EndObj]);
    assert CheckDuplicatesInJSON([BeginArr, Str("1"), EndArr, EndObj], ["1"]) == Done([EndObj]);
    assert CheckObject([Str("1"), BeginArr, Str("1"), EndArr, EndObj], [], {}) == CheckObject([EndObj], [], {"1"});
  }

  /** An object's values are checked in turn: `{"a": [1, 1]}` reports the second `1` at index 1 under path `a`. */
  lemma DuplicateUnderKeyReported()
    ensures CheckDuplicatesInJSON([BeginObj, Str("a"), BeginArr, Num("1"), Num("1"), EndArr, EndObj], [])
         == Failed(DuplicateValue("1", 1, ["a"]))
  {
    assert [] + ["a"] == ["a"];
    assert CheckArray([Num("1"), Num("1"), EndArr, EndObj], ["a"], {}, 0)
        == CheckArray([Num("1"), EndArr, EndObj], ["a"], {"1"}, 1);
  }
}
