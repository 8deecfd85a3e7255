/** The `json` method the `MySerde` derive generates: for each plan entry,
    in order, push `"<key>": <value>` onto a list (a conditional entry only
    when its predicate says no, rendering the unwrapped `Option` content),
    then join the list with "," and wrap it in `{ ` and ` }`. */
module TextRender {
  import opened Wrappers
  import opened Primitives
  import opened TextPlan

  /** A field value as the renderer sees it. */
  datatype FieldValue = U32(n: u32) | Text(s: string) | Opt(inner: Option<FieldValue>)

  /** `.unwrap()` on a `None` the predicate let through panics. */
  datatype RenderError = UnwrapNone

  /** The conditional-skip predicates, looked up by the path string given
      in `skip_serializing_if`. */
  type Evaluator = (string, FieldValue) -> bool

  function DigitChar(d: nat): char
    requires d < 10
  {
    "0123456789"[d]
  }

  /** The decimal digits of `n`, most significant first. */
  function Decimal(n: nat): string
  {
    if n < 10 then [DigitChar(n)] else Decimal(n / 10) + [DigitChar(n % 10)]
  }

  /** The value's debug form: integers in decimal, strings in double
      quotes, options as `None` / `Some(...)`. */
  function Debug(v: FieldValue): string
  {
    match v
    case U32(n) => Decimal(n)
    case Text(s) => "\"" + Escape(s) + "\""
    case Opt(None) => "None"
    case Opt(Some(x)) => "Some(" + Debug(x) + ")"
  }

  /** A string's debug form escapes the quote, the backslash and the
      NUL, tab, carriage-return and newline characters. */
  function EscapeChar(c: char): string
  {
    if c == '"' then "\\\""
    else if c == '\\' then "\\\\"
    else if c == '\0' then "\\0"
    else if c == '\t' then "\\t"
    else if c == '\r' then "\\r"
    else if c == '\n' then "\\n"
    else [c]
  }

  function Escape(s: string): string
  {
    if s == [] then "" else EscapeChar(s[0]) + Escape(s[1..])
  }

  /** One pushed entry: `"<key>": <rendered value>`. */
  function EntryText(key: string, rendered: string): string
  {
    "\"" + key + "\": " + rendered
  }

  /** `parts.join(sep)`. */
  function Join(sep: string, parts: seq<string>): string
  {
    if parts == [] then ""
    else if |parts| == 1 then parts[0]
    else parts[0] + sep + Join(sep, parts[1..])
  }

  /** Every entry reads a field that exists, and a conditional entry reads
      an `Option` field (the generated code type-checks only then). */
  predicate WellTyped(plan: Plan, rec: seq<FieldValue>)
  {
    forall k :: 0 <= k < |plan| ==> EntryTyped(plan[k], rec)
  }

  predicate EntryTyped(e: Entry, rec: seq<FieldValue>)
  {
    e.index < |rec| && (e.pred.Some? ==> rec[e.index].Opt?)
  }

  /** The text one entry pushes, if any: a plain entry always renders its
      field; a conditional one renders the unwrapped content when the
      predicate says no, and nothing when it says yes. */
  function Step(e: Entry, rec: seq<FieldValue>, eval: Evaluator): Result<Option<string>, RenderError>
    requires EntryTyped(e, rec)
  {
    var v := rec[e.index];
    if e.pred.None? then Success(Some(EntryText(e.key, Debug(v))))
    else if eval(e.pred.value, v) then Success(None)
    else if v.inner.None? then Failure(UnwrapNone)
    else Success(Some(EntryText(e.key, Debug(v.inner.value))))
  }

  /** The list `json` builds from the entries at positions `i` and on. */
  function EntriesFrom(plan: Plan, rec: seq<FieldValue>, eval: Evaluator, i: nat): Result<seq<string>, RenderError>
    requires WellTyped(plan, rec)
    decreases |plan| - i
  {
    if i >= |plan| then Success([])
    else
      match Step(plan[i], rec, eval)
      case Failure(err) => Failure(err)
      case Success(None) => EntriesFrom(plan, rec, eval, i + 1)
      case Success(Some(text)) => Cons(text, EntriesFrom(plan, rec, eval, i + 1))
  }

  /** The list `json` builds. */
  function Entries(plan: Plan, rec: seq<FieldValue>, eval: Evaluator): Result<seq<string>, RenderError>
    requires WellTyped(plan, rec)
  {
    EntriesFrom(plan, rec, eval, 0)
  }

  function Cons(head: string, rest: Result<seq<string>, RenderError>): Result<seq<string>, RenderError>
  {
    match rest
    case Success(es) => Success([head] + es)
    case Failure(err) => Failure(err)
  }

  /** What `json` returns. */
  function Render(plan: Plan, rec: seq<FieldValue>, eval: Evaluator): Result<string, RenderError>
    requires WellTyped(plan, rec)
  {
    match Entries(plan, rec, eval)
    case Success(es) => Success("{ " + Join(",", es) + " }")
    case Failure(err) => Failure(err)
  }

  /** The generated `json`: pushes onto the list `map` (here `pushed`) entry by entry, then joins. */
  method Json(plan: Plan, rec: seq<FieldValue>, eval: Evaluator) returns (r: Result<string, RenderError>)
    requires WellTyped(plan, rec)
    ensures r == Render(plan, rec, eval)
  {
    var pushed: seq<string> := [];
    var i := 0;
    PushedAfterEmpty(Entries(plan, rec, eval));
    while i < |plan|
      invariant 0 <= i <= |plan|
      invariant Entries(plan, rec, eval) == PushedAfter(pushed, EntriesFrom(plan, rec, eval, i))
    {
      var step := PushEntry(plan[i], rec, eval);
      match step {
        case Failure(err) =>
          return Failure(err);
        case Success(None) =>
        case Success(Some(text)) =>
          PushedAfterCons(pushed, text, EntriesFrom(plan, rec, eval, i + 1));
          pushed := pushed + [text];
      }
      i := i + 1;
    }
    assert pushed + [] == pushed;
    r := Success("{ " + Join(",", pushed) + " }");
  }

  /** One iteration of the generated loop: the entry's text, nothing when
      the predicate holds, or the `.unwrap()` panic. */
  method PushEntry(e: Entry, rec: seq<FieldValue>, eval: Evaluator) returns (r: Result<Option<string>, RenderError>)
    requires EntryTyped(e, rec)
    ensures r == Step(e, rec, eval)
  {
    var v := rec[e.index];
    match e.pred {
      case Some(p) =>
        if eval(p, v) {
          return Success(None);
        }
        if v.inner.None? {
          return Failure(UnwrapNone);
        }
        return Success(Some(EntryText(e.key, Debug(v.inner.value))));
      case None =>
        return Success(Some(EntryText(e.key, Debug(v))));
    }
  }

  lemma PushedAfterEmpty(rest: Result<seq<string>, RenderError>)
    ensures PushedAfter([], rest) == rest
  {
    if rest.Success? {
      assert [] + rest.value == rest.value;
    }
  }

  lemma PushedAfterCons(done: seq<string>, text: string, rest: Result<seq<string>, RenderError>)
    ensures PushedAfter(done, Cons(text, rest)) == PushedAfter(done + [text], rest)
  {
    if rest.Success? {
      assert done + ([text] + rest.value) == (done + [text]) + rest.value;
    }
  }

  /** Entries already pushed in front of the rest of the run. */
  function PushedAfter(done: seq<string>, rest: Result<seq<string>, RenderError>): Result<seq<string>, RenderError>
  {
    match rest
    case Success(es) => Success(done + es)
    case Failure(err) => Failure(err)
  }
}
