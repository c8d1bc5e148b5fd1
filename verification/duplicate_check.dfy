/**
  The duplicate pre-pass over a JSON token stream, exactly as the source
  writes it (pkg/json-duplicate-checker).

  The `encoding/json` decoder is modelled by the list of tokens it would
  hand out: `Token()` pops the head of the list (and fails with EOF on an
  empty list), `More()` holds when a next token exists and is not a closing
  delimiter.
 */
module DuplicateCheck {

  datatype Token =
    | BeginObj
    | EndObj
    | BeginArr
    | EndArr
    | Str(s: string)
      /** a number, carried as the `%v` text of the float64 the decoder produced */
    | Num(shown: string)
    | Bool(b: bool)
    | Null

  /** `fmt.Sprintf("%v", t)` of a token returned by `Decoder.Token()`. */
  function Render(t: Token): string
  {
    match t
    case BeginObj => "{"
    case EndObj => "}"
    case BeginArr => "["
    case EndArr => "]"
    case Str(s) => s
    case Num(shown) => shown
    case Bool(b) => if b then "true" else "false"
    case Null => "<nil>"
  }

  predicate IsScalar(t: Token)
  {
    t.Str? || t.Num? || t.Bool? || t.Null?
  }

  /** `Decoder.More()` */
  predicate More(ts: seq<Token>)
  {
    |ts| > 0 && ts[0] != EndObj && ts[0] != EndArr
  }

  datatype CheckError =
    | Eof
      /** `ErrDuplicateInJSON` with the parent path followed by the repeated key */
    | DuplicateKey(path: seq<string>)
      /** `ErrDuplicateInJSON` naming the repeated value, its index and the array's path */
    | DuplicateValue(shown: string, index: nat, path: seq<string>)
  {
    predicate IsDuplicate() { DuplicateKey? || DuplicateValue? }
  }

  /** What is left of the stream after a check, or why the check stopped. */
  datatype Step =
    | Done(rest: seq<Token>)
    | Failed(error: CheckError)
      /** the type assertion `t.(string)` on a key that is not a string */
    | Panicked(offending: Token)

  /** A successful step consumed at least one token and left a suffix of its input. */
  predicate Consumed(ts: seq<Token>, r: Step)
  {
    r.Done? ==> |r.rest| < |ts| && r.rest == ts[|ts| - |r.rest|..]
  }

  /** `CheckDuplicatesInJSON(d, path)` */
  function CheckDuplicatesInJSON(ts: seq<Token>, path: seq<string>): (r: Step)
    ensures |ts| == 0 ==> r == Failed(Eof)
    ensures |ts| > 0 && ts[0] != BeginObj && ts[0] != BeginArr ==> r == Done(ts[1..])
    ensures Consumed(ts, r)
    decreases |ts|, 1
  {
    if |ts| == 0 then Failed(Eof)
    else if ts[0] == BeginObj then CheckObject(ts[1..], path, {})
    else if ts[0] == BeginArr then CheckArray(ts[1..], path, {}, 0)
    else Done(ts[1..])
  }

  /** `checkObject(d, path)`, its loop entered with the keys seen so far. */
  function CheckObject(ts: seq<Token>, path: seq<string>, keys: set<string>): (r: Step)
    ensures Consumed(ts, r)
    decreases |ts|, 0
  {
    if More(ts) then
      var t := ts[0];
      if !t.Str? then Panicked(t)
      else if t.s in keys then Failed(DuplicateKey(path + [t.s]))
      else
        var v := CheckDuplicatesInJSON(ts[1..], path + [t.s]);
        if v.Done? then CheckObject(v.rest, path, keys + {t.s}) else v
    else if |ts| == 0 then Failed(Eof)
    else Done(ts[1..])
  }

  /**
    `checkArray(d, path)`, its loop entered with the renderings seen so far
    and the index of the next element. It does not recurse: a nested `{` or
    `[` is rendered like any other token and the loop runs on over the
    nested container's tokens.
   */
  function CheckArray(ts: seq<Token>, path: seq<string>, values: set<string>, index: nat): (r: Step)
    ensures Consumed(ts, r)
    decreases |ts|
  {
    if More(ts) then
      var shown := Render(ts[0]);
      if shown in values then Failed(DuplicateValue(shown, index, path))
      else CheckArray(ts[1..], path, values + {shown}, index + 1)
    else if |ts| == 0 then Failed(Eof)
    else Done(ts[1..])
  }
}
