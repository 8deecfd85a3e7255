/** The `MySerde` derive's resolution of `#[serde(...)]` directives: per
    field, a fold over the directives gives `(rename, skip_if, skip)`;
    `skip` drops the field, a conditional skip without a rename is refused,
    and every other field becomes one entry of the rendering plan. */
module TextPlan {
  import opened Wrappers
  import opened Syntax

  /** Why the derive refuses an item. `UnsupportedDirective` and the
      first two are panics of the generator; `RenameRequired` is the
      compile error it returns. */
  datatype PlanError =
    | StructRequired
    | NamedFieldsRequired
    | UnsupportedDirective(field: string)
    | RenameRequired(field: string)

  /** The mutable locals of the per-field attribute loop. */
  datatype Directives = Directives(rename: Option<string>, skipIf: Option<string>, skip: bool)

  const NoDirectives := Directives(None, None, false)

  /** One rendering step of the generated `json`: the declared position of
      the field, the key it is rendered under and, for a conditional skip,
      the name of the predicate. */
  datatype Entry = Entry(index: nat, key: string, pred: Option<string>)

  type Plan = seq<Entry>

  /** The directives a field's attributes contribute: those of attributes
      whose path is `serde` and whose argument list parses; the others are
      passed over silently. */
  function ConsideredMetas(attrs: seq<Attribute>): seq<Meta>
  {
    if attrs == [] then []
    else MetasOf(attrs[0]) + ConsideredMetas(attrs[1..])
  }

  function MetasOf(a: Attribute): seq<Meta>
  {
    if IsIdent(a.path, "serde") && a.args.ListArgs? && a.args.metas.Some?
    then a.args.metas.value
    else []
  }

  /** The string a `key = "literal"` directive gives for `key`, if `m` is one. */
  function StrValue(m: Meta, key: string): Option<string>
  {
    if m.MetaNameValue? && IsIdent(m.path, key) && m.value.StrLit? then Some(m.value.text)
    else None
  }

  /** The directives the match accepts: `rename = ...` and
      `skip_serializing_if = ...` (whatever their value), and bare `skip`. */
  predicate Recognised(m: Meta)
  {
    match m
    case MetaNameValue(p, _) => IsIdent(p, "rename") || IsIdent(p, "skip_serializing_if")
    case MetaPath(p) => IsIdent(p, "skip")
    case MetaList(_) => false
  }

  predicate IsSkip(m: Meta)
  {
    m.MetaPath? && IsIdent(m.path, "skip")
  }

  /** One arm of the match on a directive; `None` where it panics. A
      non-string value for `rename` or `skip_serializing_if` changes
      nothing. */
  function Apply(d: Directives, m: Meta): Option<Directives>
  {
    match m
    case MetaNameValue(p, v) =>
      if IsIdent(p, "rename") then
        Some(if v.StrLit? then d.(rename := Some(v.text)) else d)
      else if IsIdent(p, "skip_serializing_if") then
        Some(if v.StrLit? then d.(skipIf := Some(v.text)) else d)
      else None
    case MetaPath(p) =>
      if IsIdent(p, "skip") then Some(d.(skip := true)) else None
    case MetaList(_) => None
  }

  /** The fold over a field's directives, in order. */
  function Fold(d: Directives, ms: seq<Meta>): Option<Directives>
    decreases |ms|
  {
    if ms == [] then Some(d)
    else
      match Apply(d, ms[0])
      case None => None
      case Some(d') => Fold(d', ms[1..])
  }

  /** A field's fate: dropped, or rendered under a key (with an optional
      conditional-skip predicate). */
  datatype Policy = Skipped | Emit(key: string, pred: Option<string>)

  /** One field: fold its directives; `skip` wins before the rename check;
      `skip_serializing_if` needs `rename`; the key is the rename if any,
      else the declared name. */
  function ResolveField(f: FieldDecl): Result<Policy, PlanError>
  {
    match Fold(NoDirectives, ConsideredMetas(f.attrs))
    case None => Failure(UnsupportedDirective(f.name))
    case Some(d) =>
      if d.skip then Success(Skipped)
      else if d.skipIf.Some? && d.rename.None? then Failure(RenameRequired(f.name))
      else Success(Emit(if d.rename.Some? then d.rename.value else f.name, d.skipIf))
  }

  /** Each field's resolution, in declaration order. */
  function Resolutions(fields: seq<FieldDecl>): (rs: seq<Result<Policy, PlanError>>)
    ensures |rs| == |fields| && forall i :: 0 <= i < |fields| ==> rs[i] == ResolveField(fields[i])
  {
    seq(|fields|, i requires 0 <= i < |fields| => ResolveField(fields[i]))
  }

  /** The plan assembled from resolutions numbered from `from`: a failed
      field stops the derive, a skipped one adds nothing, any other adds
      its entry. */
  function Assemble(rs: seq<Result<Policy, PlanError>>, from: nat): Result<Plan, PlanError>
  {
    if rs == [] then Success([])
    else
      match rs[0]
      case Failure(e) => Failure(e)
      case Success(Skipped) => Assemble(rs[1..], from + 1)
      case Success(Emit(key, pred)) => Prepend([Entry(from, key, pred)], Assemble(rs[1..], from + 1))
  }

  function Prepend(done: Plan, rest: Result<Plan, PlanError>): Result<Plan, PlanError>
  {
    match rest
    case Success(p) => Success(done + p)
    case Failure(e) => Failure(e)
  }

  /** The rendering plan the derive produces for an item. */
  function PlanOf(item: Item): Result<Plan, PlanError>
  {
    match item
    case Struct(Named(fields)) => Assemble(Resolutions(fields), 0)
    case Struct(_) => Failure(NamedFieldsRequired)
    case _ => Failure(StructRequired)
  }

  /** The derive itself: for each field a loop over its attributes and,
      inside, over their directives, updating the locals; then `continue`
      on skip, an early return on a conditional skip without rename, and a
      push of the field's entry otherwise. */
  method DeriveMySerde(item: Item) returns (r: Result<Plan, PlanError>)
    ensures r == PlanOf(item)
  {
    if !item.Struct? {
      return Failure(StructRequired);
    }
    if !item.fields.Named? {
      return Failure(NamedFieldsRequired);
    }
    var fields := item.fields.named;
    var serializedFields: Plan := [];
    ghost var rs := Resolutions(fields);
    var i := 0;
    PrependEmpty(rs);
    while i < |fields|
      invariant 0 <= i <= |fields|
      invariant Assemble(rs, 0) == Prepend(serializedFields, Assemble(rs[i..], i))
    {
      AssembleStep(rs, i);
      var policy := FieldPolicy(fields[i]);
      match policy {
        case Failure(e) =>
          return Failure(e);
        case Success(Skipped) =>
        case Success(Emit(fieldName, skipIf)) =>
          var entry := Entry(i, fieldName, skipIf);
          PrependPrepend(serializedFields, [entry], Assemble(rs[i + 1..], i + 1));
          serializedFields := serializedFields + [entry];
      }
      i := i + 1;
    }
    assert rs[i..] == [];
    assert serializedFields + [] == serializedFields;
    r := Success(serializedFields);
  }

  /** The body of the field loop: the attribute loop, then `continue` on
      skip, the early return on a conditional skip without rename, and
      otherwise the field's key and predicate. */
  method FieldPolicy(field: FieldDecl) returns (r: Result<Policy, PlanError>)
    ensures r == ResolveField(field)
  {
    var d, ok := ResolveDirectives(field.attrs);
    if !ok {
      return Failure(UnsupportedDirective(field.name));
    }
    if d.skip {
      return Success(Skipped);
    }
    if d.skipIf.Some? && d.rename.None? {
      return Failure(RenameRequired(field.name));
    }
    var fieldName := if d.rename.Some? then d.rename.value else field.name;
    r := Success(Emit(fieldName, d.skipIf));
  }

  lemma PrependEmpty(rs: seq<Result<Policy, PlanError>>)
    ensures rs[0..] == rs
    ensures Assemble(rs, 0) == Prepend([], Assemble(rs[0..], 0))
  {
    assert rs[0..] == rs;
    if Assemble(rs, 0).Success? {
      assert [] + Assemble(rs, 0).value == Assemble(rs, 0).value;
    }
  }

  /** Assembling from position `i`: the resolution there, then the rest. */
  lemma AssembleStep(rs: seq<Result<Policy, PlanError>>, i: nat)
    requires i < |rs|
    ensures Assemble(rs[i..], i) ==
      match rs[i]
      case Failure(e) => Failure(e)
      case Success(Skipped) => Assemble(rs[i + 1..], i + 1)
      case Success(Emit(key, pred)) => Prepend([Entry(i, key, pred)], Assemble(rs[i + 1..], i + 1))
  {
    assert rs[i..][0] == rs[i] && rs[i..][1..] == rs[i + 1..];
  }

  lemma PrependPrepend(done: Plan, more: Plan, rest: Result<Plan, PlanError>)
    ensures Prepend(done, Prepend(more, rest)) == Prepend(done + more, rest)
  {
    if rest.Success? {
      assert done + (more + rest.value) == (done + more) + rest.value;
    }
  }

  /** Folding over two runs of directives is folding over the first and
      then, from where it left off, over the second. */
  lemma {:induction false} FoldAppend(d: Directives, a: seq<Meta>, b: seq<Meta>)
    ensures Fold(d, a + b) == if Fold(d, a).None? then None else Fold(Fold(d, a).value, b)
    decreases |a|
  {
    if a == [] {
      assert a + b == b;
    } else {
      assert (a + b)[0] == a[0] && (a + b)[1..] == a[1..] + b;
      if Apply(d, a[0]).Some? {
        FoldAppend(Apply(d, a[0]).value, a[1..], b);
      }
    }
  }

  /** The attribute loop of one field: only `serde` attributes whose
      arguments parse are looked at; an unrecognised directive aborts
      (`ok` false). */
  method ResolveDirectives(attrs: seq<Attribute>) returns (d: Directives, ok: bool)
    ensures ok <==> Fold(NoDirectives, ConsideredMetas(attrs)).Some?
    ensures ok ==> d == Fold(NoDirectives, ConsideredMetas(attrs)).value
  {
    d := NoDirectives;
    var j := 0;
    assert attrs[j..] == attrs;
    while j < |attrs|
      invariant 0 <= j <= |attrs|
      invariant Fold(NoDirectives, ConsideredMetas(attrs)) == Fold(d, ConsideredMetas(attrs[j..]))
    {
      assert attrs[j..][0] == attrs[j] && attrs[j..][1..] == attrs[j + 1..];
      FoldAppend(d, MetasOf(attrs[j]), ConsideredMetas(attrs[j + 1..]));
      var attr := attrs[j];
      if IsIdent(attr.path, "serde") && attr.args.ListArgs? && attr.args.metas.Some? {
        var nested := attr.args.metas.value;
        var applied;
        d, applied := ApplyAll(d, nested);
        if !applied {
          return d, false;
        }
      } else {
        assert ConsideredMetas(attrs[j..]) == [] + ConsideredMetas(attrs[j + 1..]);
      }
      j := j + 1;
    }
    assert attrs[j..] == [];
    ok := true;
  }

  /** The loop over one attribute's directives: each recognised one updates
      the locals, anything else aborts (`ok` false). */
  method ApplyAll(d0: Directives, nested: seq<Meta>) returns (d: Directives, ok: bool)
    ensures ok <==> Fold(d0, nested).Some?
    ensures ok ==> d == Fold(d0, nested).value
  {
    d := d0;
    var k := 0;
    assert nested[k..] == nested;
    while k < |nested|
      invariant 0 <= k <= |nested|
      invariant Fold(d0, nested) == Fold(d, nested[k..])
    {
      assert nested[k..][0] == nested[k] && nested[k..][1..] == nested[k + 1..];
      var meta := nested[k];
      match meta {
        case MetaNameValue(p, v) =>
          if IsIdent(p, "rename") {
            if v.StrLit? {
              d := d.(rename := Some(v.text));
            }
          } else if IsIdent(p, "skip_serializing_if") {
            if v.StrLit? {
              d := d.(skipIf := Some(v.text));
            }
          } else {
            return d, false;
          }
        case MetaPath(p) =>
          if IsIdent(p, "skip") {
            d := d.(skip := true);
          } else {
            return d, false;
          }
        case MetaList(_) =>
          return d, false;
      }
      k := k + 1;
    }
    assert nested[k..] == [];
    ok := true;
  }
}
