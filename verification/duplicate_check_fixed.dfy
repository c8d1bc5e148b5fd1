/**
  The duplicate pre-pass as its design describes it: a recursive descent
  that checks every nested object and array on its own, and compares only
  scalar array elements. It differs from the source in one place, the
  array loop, which here descends into a nested container instead of
  rendering its opening delimiter and running on over its tokens.
 */
module DuplicateCheckFixed {
  import opened DuplicateCheck
  import opened JsonDocument

  function CheckDuplicatesInJSON(ts: seq<Token>, path: seq<string>): (r: Step)
    ensures Consumed(ts, r)
    decreases |ts|, 1
  {
    if |ts| == 0 then Failed(Eof)
    else if ts[0] == BeginObj then CheckObject(ts[1..], path, {})
    else if ts[0] == BeginArr then CheckArray(ts[1..], path, {}, 0)
    else Done(ts[1..])
  }

  function CheckObject(ts: seq<Token>, path: seq<string>, keys: set<string>): (r: Step)
    ensures Consumed(ts, r)
    decreases |ts|, 0
  {
    if More(ts) then
      var t := ts[0];
      if !t.Str? then Panicked(t)
      else if t.s in keys then Failed(DuplicateKey(path + [t.s]))
      else
        var v := CheckDuplicatesInJSON(ts[1..], path + [t.s]);
        if v.Done? then CheckObject(v.rest, path, keys + {t.s}) else v
    else if |ts| == 0 then Failed(Eof)
    else Done(ts[1..])
  }

  function CheckArray(ts: seq<Token>, path: seq<string>, values: set<string>, index: nat): (r: Step)
    ensures Consumed(ts, r)
    decreases |ts|, 0
  {
    if More(ts) then
      var t := ts[0];
      if t == BeginObj || t == BeginArr then
        var v := if t == BeginObj then CheckObject(ts[1..], path, {}) else CheckArray(ts[1..], path, {}, 0);
        if v.Done? then CheckArray(v.rest, path, values, index + 1) else v
      else
        var shown := Render(t);
        if shown in values then Failed(DuplicateValue(shown, index, path))
        else CheckArray(ts[1..], path, values + {shown}, index + 1)
    else if |ts| == 0 then Failed(Eof)
    else Done(ts[1..])
  }

  /** The members left to check are clean relative to the keys already seen. */
  predicate MembersOk(ms: seq<Member>, keys: set<string>)
  {
    && (forall i :: 0 <= i < |ms| ==> ms[i].key !in keys)
    && !RepeatedKey(ms)
    && (forall i :: 0 <= i < |ms| ==> !HasDuplicate(ms[i].value))
  }

  /** The elements left to check are clean relative to the scalar texts already seen. */
  predicate ItemsOk(items: seq<Json>, values: set<string>)
  {
    && (forall i :: 0 <= i < |items| && IsScalarValue(items[i]) ==> Shown(items[i]) !in values)
    && !RepeatedScalar(items)
    && (forall i :: 0 <= i < |items| ==> !HasDuplicate(items[i]))
  }

  /** A check that reaches the end of a well-formed value: clean, or a duplicate. */
  predicate Verdict(r: Step, clean: bool, rest: seq<Token>)
  {
    if clean then r == Done(rest) else r.Failed? && r.error.IsDuplicate()
  }

  /**
    The corrected pre-pass is exact: on the tokens of any document, followed
    by anything, it stops right after the document when the document repeats
    nothing, and reports a duplicate when it does. It never panics and never
    runs off the end of a well-formed document.
   */
  lemma {:induction false} CheckIsExact(j: Json, rest: seq<Token>, path: seq<string>)
    ensures Verdict(CheckDuplicatesInJSON(Tokens(j) + rest, path), !HasDuplicate(j), rest)
    decreases j
  {
    match j
    case JArr(items) => ArrayExact(items, rest, path);
    case JObj(ms) => ObjectExact(ms, rest, path);
    case _ =>
  }

  lemma {:induction false} ArrayExact(items: seq<Json>, rest: seq<Token>, path: seq<string>)
    ensures Verdict(CheckDuplicatesInJSON(Tokens(JArr(items)) + rest, path), !HasDuplicate(JArr(items)), rest)
    decreases items, 2
  {
    var ts := Tokens(JArr(items)) + rest;
    assert ts == [BeginArr] + (ItemTokens(items) + [EndArr] + rest);
    assert ts[1..] == ItemTokens(items) + [EndArr] + rest;
    ItemsExact(items, {}, 0, rest, path);
    assert ItemsOk(items, {}) <==> !HasDuplicate(JArr(items));
  }

  lemma {:induction false} ObjectExact(ms: seq<Member>, rest: seq<Token>, path: seq<string>)
    ensures Verdict(CheckDuplicatesInJSON(Tokens(JObj(ms)) + rest, path), !HasDuplicate(JObj(ms)), rest)
    decreases ms, 1
  {
    var ts := Tokens(JObj(ms)) + rest;
    assert ts == [BeginObj] + (MemberTokens(ms) + [EndObj] + rest);
    assert ts[1..] == MemberTokens(ms) + [EndObj] + rest;
    MembersExact(ms, {}, rest, path);
    assert MembersOk(ms, {}) <==> !HasDuplicate(JObj(ms));
  }

  lemma {:induction false} MembersExact(ms: seq<Member>, keys: set<string>, rest: seq<Token>, path: seq<string>)
    ensures Verdict(CheckObject(MemberTokens(ms) + [EndObj] + rest, path, keys), MembersOk(ms, keys), rest)
    decreases ms, 0
  {
    var ts := MemberTokens(ms) + [EndObj] + rest;
    if |ms| == 0 {
      assert ts == [EndObj] + rest;
    } else {
      var k, v := ms[0].key, ms[0].value;
      var tail := MemberTokens(ms[1..]) + [EndObj] + rest;
      assert ts == [Str(k)] + (Tokens(v) + tail);
      assert ts[1..] == Tokens(v) + tail;
      if k in keys {
        assert !MembersOk(ms, keys);
      } else {
        CheckIsExact(v, tail, path + [k]);
        if HasDuplicate(v) {
          assert !MembersOk(ms, keys);
        } else {
          MembersExact(ms[1..], keys + {k}, rest, path);
          MembersOkStep(ms, keys);
        }
      }
    }
  }

  lemma MembersOkStep(ms: seq<Member>, keys: set<string>)
    requires |ms| > 0 && ms[0].key !in keys && !HasDuplicate(ms[0].value)
    ensures MembersOk(ms, keys) <==> MembersOk(ms[1..], keys + {ms[0].key})
  {
    var tail := ms[1..];
    if MembersOk(tail, keys + {ms[0].key}) {
      forall i, k | 0 <= i < k < |ms|
        ensures ms[i].key != ms[k].key
      {
        if i == 0 {
          assert ms[k] == tail[k - 1];
        } else {
          assert ms[i] == tail[i - 1] && ms[k] == tail[k - 1];
        }
      }
      forall i | 0 <= i < |ms|
        ensures !HasDuplicate(ms[i].value)
      {
        if i > 0 { assert ms[i] == tail[i - 1]; }
      }
    }
    if MembersOk(ms, keys) {
      forall i | 0 <= i < |tail|
        ensures tail[i].key !in keys + {ms[0].key}
      {
        assert tail[i] == ms[i + 1];
      }
      forall i | 0 <= i < |tail|
        ensures !HasDuplicate(tail[i].value)
      {
        assert tail[i] == ms[i + 1];
      }
    }
  }

  lemma {:induction false} ItemsExact(items: seq<Json>, values: set<string>, index: nat, rest: seq<Token>, path: seq<string>)
    ensures Verdict(CheckArray(ItemTokens(items) + [EndArr] + rest, path, values, index), ItemsOk(items, values), rest)
    decreases items, 1
  {
    var ts := ItemTokens(items) + [EndArr] + rest;
    if |items| == 0 {
      assert ts == [EndArr] + rest;
    } else if items[0].JArr? || items[0].JObj? {
      ContainerItemExact(items, values, index, rest, path);
    } else {
      ScalarItemExact(items, values, index, rest, path);
    }
  }

  /** The array loop over a nested container: it checks the container and goes on after it. */
  lemma {:induction false} ContainerItemExact(items: seq<Json>, values: set<string>, index: nat, rest: seq<Token>, path: seq<string>)
    requires |items| > 0 && (items[0].JArr? || items[0].JObj?)
    ensures Verdict(CheckArray(ItemTokens(items) + [EndArr] + rest, path, values, index), ItemsOk(items, values), rest)
    decreases items, 0
  {
    var x := items[0];
    var tail := ItemTokens(items[1..]) + [EndArr] + rest;
    var ts := ItemTokens(items) + [EndArr] + rest;
    assert ts == Tokens(x) + tail;
    CheckIsExact(x, tail, path);
    if x.JArr? {
      assert ts == [BeginArr] + (ItemTokens(x.items) + [EndArr] + tail);
    } else {
      assert ts == [BeginObj] + (MemberTokens(x.members) + [EndObj] + tail);
    }
    if HasDuplicate(x) {
      assert !ItemsOk(items, values);
    } else {
      ItemsExact(items[1..], values, index + 1, rest, path);
      ItemsOkStepContainer(items, values);
    }
  }

  /** The array loop over a scalar: a text already seen is a duplicate; otherwise it is remembered. */
  lemma {:induction false} ScalarItemExact(items: seq<Json>, values: set<string>, index: nat, rest: seq<Token>, path: seq<string>)
    requires |items| > 0 && !items[0].JArr? && !items[0].JObj?
    ensures Verdict(CheckArray(ItemTokens(items) + [EndArr] + rest, path, values, index), ItemsOk(items, values), rest)
    decreases items, 0
  {
    var x := items[0];
    var tail := ItemTokens(items[1..]) + [EndArr] + rest;
    var ts := ItemTokens(items) + [EndArr] + rest;
    assert ts == [Tokens(x)[0]] + tail;
    if Shown(x) in values {
      assert !ItemsOk(items, values);
    } else {
      ItemsExact(items[1..], values + {Shown(x)}, index + 1, rest, path);
      ItemsOkStepScalar(items, values);
    }
  }

  lemma ItemsOkStepContainer(items: seq<Json>, values: set<string>)
    requires |items| > 0 && !IsScalarValue(items[0]) && !HasDuplicate(items[0])
    ensures ItemsOk(items, values) <==> ItemsOk(items[1..], values)
  {
    var tail := items[1..];
    if ItemsOk(tail, values) {
      forall i | 0 <= i < |items| && IsScalarValue(items[i])
        ensures Shown(items[i]) !in values
      {
        assert items[i] == tail[i - 1];
      }
      forall i | 0 <= i < |items|
        ensures !HasDuplicate(items[i])
      {
        if i > 0 { assert items[i] == tail[i - 1]; }
      }
    }
    if ItemsOk(items, values) {
      forall i | 0 <= i < |tail| && IsScalarValue(tail[i])
        ensures Shown(tail[i]) !in values
      {
        assert tail[i] == items[i + 1];
      }
      forall i | 0 <= i < |tail|
        ensures !HasDuplicate(tail[i])
      {
        assert tail[i] == items[i + 1];
      }
    }
  }

  lemma ItemsOkStepScalar(items: seq<Json>, values: set<string>)
    requires |items| > 0 && IsScalarValue(items[0]) && Shown(items[0]) !in values
    ensures ItemsOk(items, values) <==> ItemsOk(items[1..], values + {Shown(items[0])})
  {
    var tail := items[1..];
    var v := Shown(items[0]);
    if ItemsOk(tail, values + {v}) {
      forall i | 0 <= i < |items| && IsScalarValue(items[i])
        ensures Shown(items[i]) !in values
      {
        if i > 0 { assert items[i] == tail[i - 1]; }
      }
      forall i | 0 <= i < |items|
        ensures !HasDuplicate(items[i])
      {
        if i > 0 { assert items[i] == tail[i - 1]; }
      }
    }
    if ItemsOk(items, values) {
      forall i | 0 <= i < |tail| && IsScalarValue(tail[i])
        ensures Shown(tail[i]) !in values + {v}
      {
        assert tail[i] == items[i + 1];
      }
      forall i | 0 <= i < |tail|
        ensures !HasDuplicate(tail[i])
      {
        assert tail[i] == items[i + 1];
      }
    }
  }
}
