/**
  How the pre-pass as written relates to the corrected one: they agree on
  every document whose arrays hold only scalars, and part ways as soon as
  an array holds an object or an array.
 */
module DuplicateCheckFindings {
  import opened DuplicateCheck
  import opened JsonDocument
  import Fixed = DuplicateCheckFixed

  /**
    On documents whose arrays hold scalars only, the source's check gives
    exactly the corrected check's answer, so there it is exact as well.
   */
  lemma {:induction false} AgreesOnFlatArrays(j: Json, rest: seq<Token>, path: seq<string>)
    requires FlatArrays(j)
    ensures CheckDuplicatesInJSON(Tokens(j) + rest, path) == Fixed.CheckDuplicatesInJSON(Tokens(j) + rest, path)
    ensures Fixed.Verdict(CheckDuplicatesInJSON(Tokens(j) + rest, path), !HasDuplicate(j), rest)
    decreases j
  {
    Fixed.CheckIsExact(j, rest, path);
    match j
    case JArr(items) =>
      assert Tokens(j) + rest == [BeginArr] + (ItemTokens(items) + [EndArr] + rest);
      ScalarItemsAgree(items, {}, 0, rest, path);
    case JObj(ms) =>
      assert Tokens(j) + rest == [BeginObj] + (MemberTokens(ms) + [EndObj] + rest);
      MembersAgree(ms, {}, rest, path);
    case _ =>
  }

  lemma {:induction false} MembersAgree(ms: seq<Member>, keys: set<string>, rest: seq<Token>, path: seq<string>)
    requires forall i :: 0 <= i < |ms| ==> FlatArrays(ms[i].value)
    ensures CheckObject(MemberTokens(ms) + [EndObj] + rest, path, keys)
         == Fixed.CheckObject(MemberTokens(ms) + [EndObj] + rest, path, keys)
    decreases ms
  {
    var ts := MemberTokens(ms) + [EndObj] + rest;
    if |ms| == 0 {
      assert ts == [EndObj] + rest;
    } else {
      var k, v := ms[0].key, ms[0].value;
      var tail := MemberTokens(ms[1..]) + [EndObj] + rest;
      assert ts == [Str(k)] + (Tokens(v) + tail);
      assert ts[1..] == Tokens(v) + tail;
      if k !in keys {
        AgreesOnFlatArrays(v, tail, path + [k]);
        Fixed.CheckIsExact(v, tail, path + [k]);
        MembersAgree(ms[1..], keys + {k}, rest, path);
      }
    }
  }

  lemma {:induction false} ScalarItemsAgree(items: seq<Json>, values: set<string>, index: nat, rest: seq<Token>, path: seq<string>)
    requires forall i :: 0 <= i < |items| ==> IsScalarValue(items[i])
    ensures CheckArray(ItemTokens(items) + [EndArr] + rest, path, values, index)
         == Fixed.CheckArray(ItemTokens(items) + [EndArr] + rest, path, values, index)
    decreases items
  {
    var ts := ItemTokens(items) + [EndArr] + rest;
    if |items| == 0 {
      assert ts == [EndArr] + rest;
    } else {
      var tail := ItemTokens(items[1..]) + [EndArr] + rest;
      assert ts == [Tokens(items[0])[0]] + tail;
      ScalarItemsAgree(items[1..], values + {Shown(items[0])}, index + 1, rest, path);
    }
  }

  /** `[1, {"a": 1}]` repeats nothing, yet the source reports the `1` inside the object as a repeat of the first element. */
  lemma FalseDuplicateInArray()
    ensures var j := JArr([JNum("1"), JObj([Member("a", JNum("1"))])]);
      && !HasDuplicate(j)
      && CheckDuplicatesInJSON(Tokens(j), []) == Failed(DuplicateValue("1", 3, []))
      && Fixed.CheckDuplicatesInJSON(Tokens(j), []) == Done([])
  {
    var j := JArr([JNum("1"), JObj([Member("a", JNum("1"))])]);
    FalseDuplicateShape();
    SourceReportsFalseDuplicate();
    Fixed.CheckIsExact(j, [], []);
    assert Tokens(j) + [] == Tokens(j);
  }

  lemma FalseDuplicateShape()
    ensures var j := JArr([JNum("1"), JObj([Member("a", JNum("1"))])]);
      && !HasDuplicate(j)
      && Tokens(j) == [BeginArr, Num("1"), BeginObj, Str("a"), Num("1"), EndObj, EndArr]
  {
    var inner := JObj([Member("a", JNum("1"))]);
    var j := JArr([JNum("1"), inner]);
    assert !HasDuplicate(j) by {
      assert !HasDuplicate(inner) by {
        assert !RepeatedKey(inner.members);
      }
      assert !RepeatedScalar(j.items);
    }
    assert MemberTokens(inner.members) == [Str("a"), Num("1")] by {
      assert inner.members[1..] == [];
    }
    assert Tokens(inner) == [BeginObj, Str("a"), Num("1"), EndObj];
    assert j.items[1..] == [inner] && j.items[1..][1..] == [];
    assert ItemTokens([inner]) == Tokens(inner);
    assert ItemTokens(j.items) == [Num("1")] + Tokens(inner);
  }

  lemma SourceReportsFalseDuplicate()
    ensures CheckDuplicatesInJSON([BeginArr, Num("1"), BeginObj, Str("a"), Num("1"), EndObj, EndArr], [])
         == Failed(DuplicateValue("1", 3, []))
  {
    var after := [EndObj, EndArr];
    var v1 := {} + {Render(Num("1"))};
    var v2 := v1 + {Render(BeginObj)};
    var v3 := v2 + {Render(Str("a"))};
    ArrayRepeat(Num("1"), after, [], v3, 3);
    ArrayStep(Str("a"), [Num("1")] + after, [], v2, 2);
    ArrayStep(BeginObj, [Str("a")] + ([Num("1")] + after), [], v1, 1);
    ArrayStep(Num("1"), [BeginObj] + ([Str("a")] + ([Num("1")] + after)), [], {}, 0);
    var ts := [BeginArr, Num("1"), BeginObj, Str("a"), Num("1"), EndObj, EndArr];
    assert ts[1..] == [Num("1")] + ([BeginObj] + ([Str("a")] + ([Num("1")] + after)));
  }

  /** The array loop stops at the first token it has rendered before, naming it with its index. */
  lemma ArrayRepeat(t: Token, ts: seq<Token>, path: seq<string>, values: set<string>, index: nat)
    requires t != EndObj && t != EndArr && Render(t) in values
    ensures CheckArray([t] + ts, path, values, index) == Failed(DuplicateValue(Render(t), index, path))
  {
  }

  /** `[{"x": 1}, 2, 2]` repeats `2`, yet the source stops at the object's `}` and accepts it. */
  lemma MissedDuplicateAfterNestedObject()
    ensures var j := JArr([JObj([Member("x", JNum("1"))]), JNum("2"), JNum("2")]);
      && HasDuplicate(j)
      && CheckDuplicatesInJSON(Tokens(j), []) == Done([Num("2"), Num("2"), EndArr])
      && Fixed.CheckDuplicatesInJSON(Tokens(j), []).Failed?
  {
    var j := JArr([JObj([Member("x", JNum("1"))]), JNum("2"), JNum("2")]);
    MissedDuplicateShape();
    SourceAcceptsMissed();
    Fixed.CheckIsExact(j, [], []);
    assert Tokens(j) + [] == Tokens(j);
  }

  lemma MissedDuplicateShape()
    ensures var j := JArr([JObj([Member("x", JNum("1"))]), JNum("2"), JNum("2")]);
      && HasDuplicate(j)
      && Tokens(j) == [BeginArr, BeginObj, Str("x"), Num("1"), EndObj, Num("2"), Num("2"), EndArr]
  {
    var inner := JObj([Member("x", JNum("1"))]);
    var j := JArr([inner, JNum("2"), JNum("2")]);
    assert Shown(j.items[1]) == Shown(j.items[2]);
    assert MemberTokens(inner.members) == [Str("x"), Num("1")] by {
      assert inner.members[1..] == [];
    }
    assert Tokens(inner) == [BeginObj, Str("x"), Num("1"), EndObj];
    assert j.items[1..] == [JNum("2"), JNum("2")] && j.items[1..][1..] == [JNum("2")];
    assert [JNum("2")][1..] == [];
    assert ItemTokens([JNum("2")]) == [Num("2")];
    assert ItemTokens([JNum("2"), JNum("2")]) == [Num("2"), Num("2")];
    assert ItemTokens(j.items) == Tokens(inner) + [Num("2"), Num("2")];
  }

  /**
    `{"a": [{"b": 1}, 2]}`: the array loop swallows the inner object's `}`,
    so the object loop takes `2` for a key and the type assertion panics.
   */
  lemma KeyAssertionPanics()
    ensures var j := JObj([Member("a", JArr([JObj([Member("b", JNum("1"))]), JNum("2")]))]);
      && !HasDuplicate(j)
      && CheckDuplicatesInJSON(Tokens(j), []) == Panicked(Num("2"))
      && Fixed.CheckDuplicatesInJSON(Tokens(j), []) == Done([])
  {
    var j := JObj([Member("a", JArr([JObj([Member("b", JNum("1"))]), JNum("2")]))]);
    PanicShape();
    SourcePanics();
    Fixed.CheckIsExact(j, [], []);
    assert Tokens(j) + [] == Tokens(j);
  }

  lemma PanicShape()
    ensures var j := JObj([Member("a", JArr([JObj([Member("b", JNum("1"))]), JNum("2")]))]);
      && !HasDuplicate(j)
      && Tokens(j) == [BeginObj, Str("a"), BeginArr, BeginObj, Str("b"), Num("1"), EndObj, Num("2"), EndArr, EndObj]
  {
    PanicDocumentClean();
    PanicDocumentTokens();
  }

  lemma PanicDocumentClean()
    ensures !HasDuplicate(JObj([Member("a", JArr([JObj([Member("b", JNum("1"))]), JNum("2")]))]))
  {
    var inner := JObj([Member("b", JNum("1"))]);
    var arr := JArr([inner, JNum("2")]);
    var j := JObj([Member("a", arr)]);
    assert !HasDuplicate(inner) by {
      assert !RepeatedKey(inner.members);
    }
    assert !HasDuplicate(arr) by {
      assert !RepeatedScalar(arr.items);
    }
    assert !RepeatedKey(j.members);
  }

  lemma PanicDocumentTokens()
    ensures Tokens(JObj([Member("a", JArr([JObj([Member("b", JNum("1"))]), JNum("2")]))]))
         == [BeginObj, Str("a"), BeginArr, BeginObj, Str("b"), Num("1"), EndObj, Num("2"), EndArr, EndObj]
  {
    var inner := JObj([Member("b", JNum("1"))]);
    var arr := JArr([inner, JNum("2")]);
    var j := JObj([Member("a", arr)]);
    assert MemberTokens(inner.members) == [Str("b"), Num("1")] by {
      assert inner.members[1..] == [];
    }
    assert Tokens(inner) == [BeginObj, Str("b"), Num("1"), EndObj];
    assert arr.items[1..] == [JNum("2")] && [JNum("2")][1..] == [];
    assert ItemTokens([JNum("2")]) == [Num("2")];
    assert ItemTokens(arr.items) == Tokens(inner) + [Num("2")];
    assert Tokens(arr) == [BeginArr, BeginObj, Str("b"), Num("1"), EndObj, Num("2"), EndArr];
    assert j.members[1..] == [];
    assert MemberTokens(j.members) == [Str("a")] + Tokens(arr);
  }

  lemma SourceAcceptsMissed()
    ensures CheckDuplicatesInJSON([BeginArr, BeginObj, Str("x"), Num("1"), EndObj, Num("2"), Num("2"), EndArr], [])
         == Done([Num("2"), Num("2"), EndArr])
  {
    var after := [Num("2"), Num("2"), EndArr];
    var v1 := {} + {Render(BeginObj)};
    var v2 := v1 + {Render(Str("x"))};
    var v3 := v2 + {Render(Num("1"))};
    ArrayEnd(EndObj, after, [], v3, 3);
    ArrayStep(Num("1"), [EndObj] + after, [], v2, 2);
    ArrayStep(Str("x"), [Num("1")] + ([EndObj] + after), [], v1, 1);
    ArrayStep(BeginObj, [Str("x")] + ([Num("1")] + ([EndObj] + after)), [], {}, 0);
    var ts := [BeginArr, BeginObj, Str("x"), Num("1"), EndObj, Num("2"), Num("2"), EndArr];
    assert ts[1..] == [BeginObj] + ([Str("x")] + ([Num("1")] + ([EndObj] + after)));
  }

  /** One turn of the array loop: a token not rendered before is remembered and the loop goes on. */
  lemma ArrayStep(t: Token, ts: seq<Token>, path: seq<string>, values: set<string>, index: nat)
    requires t != EndObj && t != EndArr && Render(t) !in values
    ensures CheckArray([t] + ts, path, values, index) == CheckArray(ts, path, values + {Render(t)}, index + 1)
  {
    assert ([t] + ts)[1..] == ts;
  }

  /** The array loop ends at any closing token, handing back what follows it. */
  lemma ArrayEnd(t: Token, ts: seq<Token>, path: seq<string>, values: set<string>, index: nat)
    requires t == EndObj || t == EndArr
    ensures CheckArray([t] + ts, path, values, index) == Done(ts)
  {
    assert ([t] + ts)[1..] == ts;
  }

  lemma SourcePanics()
    ensures CheckDuplicatesInJSON([BeginObj, Str("a"), BeginArr, BeginObj, Str("b"), Num("1"), EndObj, Num("2"), EndArr, EndObj], [])
         == Panicked(Num("2"))
  {
    var rest := [Num("2"), EndArr, EndObj];
    var body := [Str("a"), BeginArr, BeginObj, Str("b"), Num("1"), EndObj, Num("2"), EndArr, EndObj];
    ObjectSkipsKeyA(body, rest);
    assert CheckObject(rest, [], {"a"}) == Panicked(Num("2"));
    assert ([BeginObj] + body)[1..] == body;
  }

  lemma ObjectSkipsKeyA(body: seq<Token>, rest: seq<Token>)
    requires body == [Str("a"), BeginArr, BeginObj, Str("b"), Num("1"), EndObj, Num("2"), EndArr, EndObj]
    requires rest == [Num("2"), EndArr, EndObj]
    ensures CheckObject(body, [], {}) == CheckObject(rest, [], {"a"})
  {
    assert [] + ["a"] == ["a"];
    assert body[1..] == [BeginArr, BeginObj, Str("b"), Num("1"), EndObj, Num("2"), EndArr, EndObj];
    ArrayStopsAtInnerClose();
  }

  /** The array loop under key `a` runs over the inner object's tokens and stops at its `}`. */
  lemma ArrayStopsAtInnerClose()
    ensures CheckDuplicatesInJSON([BeginArr, BeginObj, Str("b"), Num("1"), EndObj, Num("2"), EndArr, EndObj], ["a"])
         == Done([Num("2"), EndArr, EndObj])
  {
    var after := [Num("2"), EndArr, EndObj];
    var v1 := {} + {Render(BeginObj)};
    var v2 := v1 + {Render(Str("b"))};
    var v3 := v2 + {Render(Num("1"))};
    ArrayEnd(EndObj, after, ["a"], v3, 3);
    ArrayStep(Num("1"), [EndObj] + after, ["a"], v2, 2);
    ArrayStep(Str("b"), [Num("1")] + ([EndObj] + after), ["a"], v1, 1);
    ArrayStep(BeginObj, [Str("b")] + ([Num("1")] + ([EndObj] + after)), ["a"], {}, 0);
    var ts := [BeginArr, BeginObj, Str("b"), Num("1"), EndObj, Num("2"), EndArr, EndObj];
    assert ts[1..] == [BeginObj] + ([Str("b")] + ([Num("1")] + ([EndObj] + after)));
  }
}
