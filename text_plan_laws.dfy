/** What directive resolution promises: which directives count, that the
    last `rename` / `skip_serializing_if` wins, that `skip` wins over the
    rename requirement, and that the plan lists the rendered fields in
    declaration order. */
module TextPlanLaws {
  import opened Wrappers
  import opened Syntax
  import opened TextPlan

  /** `ms[i]` gives `key` a string, and no later directive does. */
  predicate IsLast(ms: seq<Meta>, key: string, i: int)
  {
    0 <= i < |ms| && StrValue(ms[i], key).Some? &&
    forall j :: i < j < |ms| ==> StrValue(ms[j], key).None?
  }

  /** The value slot `key` names in the fold's state. */
  function Slot(d: Directives, key: string): Option<string>
  {
    if key == "rename" then d.rename else d.skipIf
  }

  /** Exactly the `serde` attributes whose arguments parse contribute
      directives, and all of theirs do. */
  lemma {:induction false} ConsideredMetasMeaning(attrs: seq<Attribute>, m: Meta)
    ensures m in ConsideredMetas(attrs) <==>
            exists j :: 0 <= j < |attrs| && IsIdent(attrs[j].path, "serde") &&
                        attrs[j].args.ListArgs? && attrs[j].args.metas.Some? &&
                        m in attrs[j].args.metas.value
  {
    if attrs != [] {
      ConsideredMetasMeaning(attrs[1..], m);
      if m in ConsideredMetas(attrs[1..]) {
        var j :| 0 <= j < |attrs[1..]| && IsIdent(attrs[1..][j].path, "serde") &&
                 attrs[1..][j].args.ListArgs? && attrs[1..][j].args.metas.Some? &&
                 m in attrs[1..][j].args.metas.value;
        assert attrs[j + 1] == attrs[1..][j];
      }
      if !(m in MetasOf(attrs[0])) && !(m in ConsideredMetas(attrs[1..])) {
        forall j | 0 <= j < |attrs| && IsIdent(attrs[j].path, "serde") &&
                   attrs[j].args.ListArgs? && attrs[j].args.metas.Some?
          ensures m !in attrs[j].args.metas.value
        {
          if j > 0 { assert attrs[j] == attrs[1..][j - 1]; }
        }
      }
    }
  }

  /** The fold succeeds exactly when every directive is recognised. */
  lemma {:induction false} FoldSucceedsIff(d: Directives, ms: seq<Meta>)
    ensures Fold(d, ms).Some? <==> AllRecognised(ms)
    decreases |ms|
  {
    if ms != [] {
      assert forall i :: 1 <= i < |ms| ==> ms[i] == ms[1..][i - 1];
      if Apply(d, ms[0]).Some? {
        FoldSucceedsIff(Apply(d, ms[0]).value, ms[1..]);
      }
    }
  }

  /** After the fold, `skip` is set exactly when it was set before or some
      directive is `skip`. */
  lemma {:induction false} FoldSkip(d: Directives, ms: seq<Meta>)
    requires Fold(d, ms).Some?
    ensures Fold(d, ms).value.skip == (d.skip || AnySkip(ms))
    decreases |ms|
  {
    if ms != [] {
      var d' := Apply(d, ms[0]).value;
      FoldSkip(d', ms[1..]);
      assert d'.skip == (d.skip || IsSkip(ms[0]));
      if AnySkip(ms[1..]) {
        var i :| 0 <= i < |ms[1..]| && IsSkip(ms[1..][i]);
        assert IsSkip(ms[i + 1]);
      }
      if AnySkip(ms) && !IsSkip(ms[0]) {
        var i :| 0 <= i < |ms| && IsSkip(ms[i]);
        assert i > 0 && IsSkip(ms[1..][i - 1]);
      }
    }
  }

  /** A string slot holds the value of the last directive that sets it
      with a string literal, and keeps its old value when none does. */
  lemma {:induction false} FoldSlot(d: Directives, ms: seq<Meta>, key: string)
    requires key == "rename" || key == "skip_serializing_if"
    requires Fold(d, ms).Some?
    ensures !Sets(ms, key) ==> Slot(Fold(d, ms).value, key) == Slot(d, key)
    ensures Sets(ms, key) ==>
            exists i :: IsLast(ms, key, i) && Slot(Fold(d, ms).value, key) == StrValue(ms[i], key)
    decreases |ms|
  {
    if ms != [] {
      var rest := ms[1..];
      var d' := Apply(d, ms[0]).value;
      FoldSlot(d', rest, key);
      assert Slot(d', key) == if StrValue(ms[0], key).Some? then StrValue(ms[0], key) else Slot(d, key);
      if Sets(rest, key) {
        var i :| IsLast(rest, key, i) && Slot(Fold(d', rest).value, key) == StrValue(rest[i], key);
        assert ms[i + 1] == rest[i];
        assert forall j :: i + 1 < j < |ms| ==> ms[j] == rest[j - 1];
        assert IsLast(ms, key, i + 1);
      } else {
        assert forall j :: 0 < j < |ms| ==> ms[j] == rest[j - 1];
        if StrValue(ms[0], key).Some? {
          assert IsLast(ms, key, 0);
        }
      }
    }
  }

  /** All directives of `ms` are recognised. */
  predicate AllRecognised(ms: seq<Meta>)
  {
    forall i :: 0 <= i < |ms| ==> Recognised(ms[i])
  }

  predicate AnySkip(ms: seq<Meta>)
  {
    exists i :: 0 <= i < |ms| && IsSkip(ms[i])
  }

  predicate Sets(ms: seq<Meta>, key: string)
  {
    exists i :: 0 <= i < |ms| && StrValue(ms[i], key).Some?
  }

  /** The outcome for one field, in terms of its directives: an unknown
      directive is refused; otherwise `skip` drops the field whatever else
      it carries; otherwise a conditional skip without rename is refused;
      otherwise the field is rendered under the last rename (or its own
      name), conditioned on the last predicate if there is one. */
  lemma ResolveFieldMeaning(f: FieldDecl)
    ensures var ms := ConsideredMetas(f.attrs);
            ResolveField(f) == Failure(UnsupportedDirective(f.name)) <==> !AllRecognised(ms)
    ensures var ms := ConsideredMetas(f.attrs);
            ResolveField(f) == Success(Skipped) <==> AllRecognised(ms) && AnySkip(ms)
    ensures var ms := ConsideredMetas(f.attrs);
            ResolveField(f) == Failure(RenameRequired(f.name)) <==>
              AllRecognised(ms) && !AnySkip(ms) && Sets(ms, "skip_serializing_if") && !Sets(ms, "rename")
    ensures var ms := ConsideredMetas(f.attrs);
            ResolveField(f).Success? && ResolveField(f).value.Emit? ==>
              var p := ResolveField(f).value;
              (p.pred.None? <==> !Sets(ms, "skip_serializing_if")) &&
              (p.pred.Some? ==> exists i :: IsLast(ms, "skip_serializing_if", i) &&
                                           p.pred == StrValue(ms[i], "skip_serializing_if")) &&
              (!Sets(ms, "rename") ==> p.key == f.name) &&
              (Sets(ms, "rename") ==> exists i :: IsLast(ms, "rename", i) &&
                                                Some(p.key) == StrValue(ms[i], "rename"))
  {
    var ms := ConsideredMetas(f.attrs);
    FoldSucceedsIff(NoDirectives, ms);
    if AllRecognised(ms) {
      FoldSkip(NoDirectives, ms);
      FoldSlot(NoDirectives, ms, "rename");
      FoldSlot(NoDirectives, ms, "skip_serializing_if");
    }
  }

  /** Entry indices strictly increase (declaration order). */
  predicate Increasing(plan: Plan)
  {
    forall a, b :: 0 <= a < b < |plan| ==> plan[a].index < plan[b].index
  }

  /** The plan exists exactly when every field resolves; otherwise it
      carries the error of the first field that does not. */
  lemma {:induction false} AssembleSucceedsIff(rs: seq<Result<Policy, PlanError>>, from: nat)
    ensures Assemble(rs, from).Success? <==> forall i :: 0 <= i < |rs| ==> rs[i].Success?
    ensures Assemble(rs, from).Failure? ==>
            exists i :: 0 <= i < |rs| && rs[i] == Failure(Assemble(rs, from).error) &&
                        forall j :: 0 <= j < i ==> rs[j].Success?
    decreases |rs|
  {
    if rs != [] {
      var rest := rs[1..];
      assert forall i :: 1 <= i < |rs| ==> rs[i] == rest[i - 1];
      AssembleSucceedsIff(rest, from + 1);
      if rs[0].Success? && Assemble(rest, from + 1).Failure? {
        var i :| 0 <= i < |rest| && rest[i] == Failure(Assemble(rest, from + 1).error) &&
                 forall j :: 0 <= j < i ==> rest[j].Success?;
        assert rs[i + 1] == Failure(Assemble(rs, from).error);
        forall j | 0 <= j < i + 1 ensures rs[j].Success? {
          if j > 0 { assert rs[j] == rest[j - 1]; }
        }
      }
    }
  }

  /** Each entry of a successful plan stands for a field that resolves
      to it: its position lies in range and it carries that field's key
      and predicate; the positions strictly increase. */
  lemma {:induction false} AssembleSound(rs: seq<Result<Policy, PlanError>>, from: nat)
    requires Assemble(rs, from).Success?
    ensures var plan := Assemble(rs, from).value;
            (forall k :: 0 <= k < |plan| ==>
               from <= plan[k].index < from + |rs| &&
               rs[plan[k].index - from] == Success(Emit(plan[k].key, plan[k].pred))) &&
            Increasing(plan)
    decreases |rs|
  {
    if rs != [] {
      var rest := rs[1..];
      AssembleSound(rest, from + 1);
      var tp := Assemble(rest, from + 1).value;
      var plan := Assemble(rs, from).value;
      if rs[0].value.Emit? {
        assert plan == [Entry(from, rs[0].value.key, rs[0].value.pred)] + tp;
        forall k | 1 <= k < |plan|
          ensures from < plan[k].index < from + |rs|
          ensures rs[plan[k].index - from] == Success(Emit(plan[k].key, plan[k].pred))
        {
          assert plan[k] == tp[k - 1];
          assert rs[plan[k].index - from] == rest[tp[k - 1].index - (from + 1)];
        }
      } else {
        forall k | 0 <= k < |plan|
          ensures rs[plan[k].index - from] == Success(Emit(plan[k].key, plan[k].pred))
        {
          assert rs[plan[k].index - from] == rest[tp[k].index - (from + 1)];
        }
      }
    }
  }

  /** Every field that resolves to an entry has one in the plan. */
  lemma {:induction false} AssembleComplete(rs: seq<Result<Policy, PlanError>>, from: nat, i: nat)
    requires Assemble(rs, from).Success?
    requires i < |rs| && rs[i].Success? && rs[i].value.Emit?
    ensures exists k :: 0 <= k < |Assemble(rs, from).value| && Assemble(rs, from).value[k].index == from + i
    decreases |rs|
  {
    var plan := Assemble(rs, from).value;
    if i == 0 {
      assert plan[0].index == from;
    } else {
      var rest := rs[1..];
      assert rest[i - 1] == rs[i];
      AssembleComplete(rest, from + 1, i - 1);
      var tp := Assemble(rest, from + 1).value;
      var k :| 0 <= k < |tp| && tp[k].index == from + 1 + (i - 1);
      if rs[0].value.Emit? {
        assert plan == [Entry(from, rs[0].value.key, rs[0].value.pred)] + tp;
        assert plan[k + 1] == tp[k];
      } else {
        assert plan[k] == tp[k];
      }
    }
  }

  /** What the derive's plan says about the struct: a field has an entry
      exactly when it resolves to one, that entry carries the field's key
      and predicate, and entries follow declaration order. */
  lemma PlanEntriesMeaning(fields: seq<FieldDecl>)
    requires PlanOf(Struct(Named(fields))).Success?
    ensures var plan := PlanOf(Struct(Named(fields))).value;
            Increasing(plan) &&
            (forall k :: 0 <= k < |plan| ==>
               plan[k].index < |fields| &&
               ResolveField(fields[plan[k].index]) == Success(Emit(plan[k].key, plan[k].pred))) &&
            (forall i :: 0 <= i < |fields| && ResolveField(fields[i]).Success? && ResolveField(fields[i]).value.Emit? ==>
               exists k :: 0 <= k < |plan| && plan[k].index == i)
  {
    var rs := Resolutions(fields);
    AssembleSound(rs, 0);
    forall i | 0 <= i < |fields| && ResolveField(fields[i]).Success? && ResolveField(fields[i]).value.Emit?
      ensures exists k :: 0 <= k < |Assemble(rs, 0).value| && Assemble(rs, 0).value[k].index == i
    {
      AssembleComplete(rs, 0, i);
    }
  }

  /** A field that resolves to `Skipped` has no entry in the derive's plan. */
  lemma SkippedFieldAbsent(fields: seq<FieldDecl>, i: nat)
    requires i < |fields|
    requires ResolveField(fields[i]) == Success(Skipped)
    requires PlanOf(Struct(Named(fields))).Success?
    ensures forall e :: e in PlanOf(Struct(Named(fields))).value ==> e.index != i
  {
    AssembleSound(Resolutions(fields), 0);
  }
}
