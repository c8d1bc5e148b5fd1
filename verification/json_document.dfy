/**
  JSON documents as trees, the token stream the decoder produces for them,
  and what "the document repeats something" means: two equal keys in one
  object, or two scalar elements of one array with the same `%v` text, at
  any depth.
 */
module JsonDocument {
  import opened DuplicateCheck

  datatype Json =
    | JNull
    | JBool(b: bool)
    | JNum(shown: string)
    | JStr(s: string)
    | JArr(items: seq<Json>)
    | JObj(members: seq<Member>)

  datatype Member = Member(key: string, value: Json)

  predicate IsScalarValue(j: Json)
  {
    !j.JArr? && !j.JObj?
  }

  /** The tokens `Decoder.Token()` hands out, one after another, for a document. */
  function Tokens(j: Json): (ts: seq<Token>)
    ensures |ts| > 0
  {
    match j
    case JNull => [Null]
    case JBool(b) => [Bool(b)]
    case JNum(shown) => [Num(shown)]
    case JStr(s) => [Str(s)]
    case JArr(items) => [BeginArr] + ItemTokens(items) + [EndArr]
    case JObj(ms) => [BeginObj] + MemberTokens(ms) + [EndObj]
  }

  function ItemTokens(items: seq<Json>): seq<Token>
  {
    if |items| == 0 then [] else Tokens(items[0]) + ItemTokens(items[1..])
  }

  function MemberTokens(ms: seq<Member>): seq<Token>
  {
    if |ms| == 0 then [] else [Str(ms[0].key)] + Tokens(ms[0].value) + MemberTokens(ms[1..])
  }

  /** The `%v` text of the first token of a document. */
  function Shown(j: Json): string
  {
    Render(Tokens(j)[0])
  }

  /** Two scalar elements of one array print the same. */
  predicate RepeatedScalar(items: seq<Json>)
  {
    exists i, k :: 0 <= i < k < |items| && IsScalarValue(items[i]) && IsScalarValue(items[k])
                   && Shown(items[i]) == Shown(items[k])
  }

  /** Two members of one object have the same key. */
  predicate RepeatedKey(ms: seq<Member>)
  {
    exists i, k :: 0 <= i < k < |ms| && ms[i].key == ms[k].key
  }

  predicate HasDuplicate(j: Json)
  {
    match j
    case JArr(items) =>
      RepeatedScalar(items) || exists i :: 0 <= i < |items| && HasDuplicate(items[i])
    case JObj(ms) =>
      RepeatedKey(ms) || exists i :: 0 <= i < |ms| && HasDuplicate(ms[i].value)
    case _ => false
  }

  /** Every array in the document holds scalars only. */
  predicate FlatArrays(j: Json)
  {
    match j
    case JArr(items) => forall i :: 0 <= i < |items| ==> IsScalarValue(items[i])
    case JObj(ms) => forall i :: 0 <= i < |ms| ==> FlatArrays(ms[i].value)
    case _ => true
  }
}
