/** What the generated `json` promises: which entries appear and in what
    order, when it panics, and that each piece of the output can be read
    back (the decimal digits, the escaped string, the comma-joined list). */
module TextRenderLaws {
  import opened Wrappers
  import opened TextPlan
  import opened TextPlanLaws
  import opened TextRender

  // ---------------------------------------------------------------------
  // Which entries are rendered

  /** The entry is pushed: it is plain, or its predicate says no. */
  predicate Kept(e: Entry, rec: seq<FieldValue>, eval: Evaluator)
    requires EntryTyped(e, rec)
  {
    e.pred.None? || !eval(e.pred.value, rec[e.index])
  }

  /** The predicate lets a `None` through, so `.unwrap()` panics. */
  predicate Panics(e: Entry, rec: seq<FieldValue>, eval: Evaluator)
    requires EntryTyped(e, rec)
  {
    e.pred.Some? && !eval(e.pred.value, rec[e.index]) && rec[e.index].inner.None?
  }

  /** The entries at positions `i` and on that are pushed, in plan order. */
  function KeptFrom(plan: Plan, rec: seq<FieldValue>, eval: Evaluator, i: nat): Plan
    requires WellTyped(plan, rec)
    decreases |plan| - i
  {
    if i >= |plan| then []
    else if Kept(plan[i], rec, eval) then [plan[i]] + KeptFrom(plan, rec, eval, i + 1)
    else KeptFrom(plan, rec, eval, i + 1)
  }

  /** A pushed entry has something to show. */
  predicate Showable(e: Entry, rec: seq<FieldValue>)
  {
    EntryTyped(e, rec) && (e.pred.Some? ==> rec[e.index].inner.Some?)
  }

  /** The value an entry shows: the field itself, or the content of the
      `Option` for a conditional entry. */
  function Shown(e: Entry, rec: seq<FieldValue>): FieldValue
    requires Showable(e, rec)
  {
    if e.pred.None? then rec[e.index] else rec[e.index].inner.value
  }

  /** The texts of a list of pushed entries. */
  function TextsOf(kept: Plan, rec: seq<FieldValue>): seq<string>
    requires forall j :: 0 <= j < |kept| ==> Showable(kept[j], rec)
  {
    seq(|kept|, j requires 0 <= j < |kept| => EntryText(kept[j].key, Debug(Shown(kept[j], rec))))
  }

  /** Every kept entry comes from the plan at position `i` or later and
      is one whose predicate says no (or that has none). */
  lemma {:induction false} KeptFromSound(plan: Plan, rec: seq<FieldValue>, eval: Evaluator, i: nat)
    requires WellTyped(plan, rec) && i <= |plan|
    ensures forall e :: e in KeptFrom(plan, rec, eval, i) ==> e in plan[i..] && Kept(e, rec, eval)
    decreases |plan| - i
  {
    if i < |plan| {
      KeptFromSound(plan, rec, eval, i + 1);
      assert plan[i..] == [plan[i]] + plan[i + 1..];
    }
  }

  /** Every entry at position `i` or later whose predicate says no (or
      that has none) is kept. */
  lemma {:induction false} KeptFromComplete(plan: Plan, rec: seq<FieldValue>, eval: Evaluator, i: nat)
    requires WellTyped(plan, rec) && i <= |plan|
    ensures forall k :: i <= k < |plan| && Kept(plan[k], rec, eval) ==> plan[k] in KeptFrom(plan, rec, eval, i)
    decreases |plan| - i
  {
    if i < |plan| {
      KeptFromComplete(plan, rec, eval, i + 1);
    }
  }

  /** The kept entries keep the plan's order. */
  lemma {:induction false} KeptFromOrdered(plan: Plan, rec: seq<FieldValue>, eval: Evaluator, i: nat)
    requires WellTyped(plan, rec) && i <= |plan|
    requires Increasing(plan)
    ensures Increasing(KeptFrom(plan, rec, eval, i))
    decreases |plan| - i
  {
    if i < |plan| {
      KeptFromOrdered(plan, rec, eval, i + 1);
      if Kept(plan[i], rec, eval) {
        var rest := KeptFrom(plan, rec, eval, i + 1);
        KeptFromSound(plan, rec, eval, i + 1);
        forall b | 0 < b < |[plan[i]] + rest|
          ensures plan[i].index < ([plan[i]] + rest)[b].index
        {
          assert ([plan[i]] + rest)[b] == rest[b - 1];
          assert rest[b - 1] in plan[i + 1..];
        }
      }
    }
  }

  /** Rendering panics exactly when some conditional entry's predicate
      lets a `None` through. */
  lemma {:induction false} EntriesSucceedsIff(plan: Plan, rec: seq<FieldValue>, eval: Evaluator, i: nat)
    requires WellTyped(plan, rec) && i <= |plan|
    ensures EntriesFrom(plan, rec, eval, i).Success? <==>
      forall k :: i <= k < |plan| ==> !Panics(plan[k], rec, eval)
    decreases |plan| - i
  {
    if i < |plan| {
      EntriesSucceedsIff(plan, rec, eval, i + 1);
    }
  }

  lemma TextsOfCons(e: Entry, kept: Plan, rec: seq<FieldValue>)
    requires Showable(e, rec)
    requires forall j :: 0 <= j < |kept| ==> Showable(kept[j], rec)
    ensures forall j :: 0 <= j < |[e] + kept| ==> Showable(([e] + kept)[j], rec)
    ensures TextsOf([e] + kept, rec) == [EntryText(e.key, Debug(Shown(e, rec)))] + TextsOf(kept, rec)
  {
    assert forall j :: 0 < j < |[e] + kept| ==> ([e] + kept)[j] == kept[j - 1];
  }

  /** On success the list holds one text per kept entry, in order, each
      `"<key>": <debug of the shown value>`. */
  lemma {:induction false} EntriesSound(plan: Plan, rec: seq<FieldValue>, eval: Evaluator, i: nat)
    requires WellTyped(plan, rec) && i <= |plan|
    requires EntriesFrom(plan, rec, eval, i).Success?
    ensures forall j :: 0 <= j < |KeptFrom(plan, rec, eval, i)| ==> Showable(KeptFrom(plan, rec, eval, i)[j], rec)
    ensures EntriesFrom(plan, rec, eval, i).value == TextsOf(KeptFrom(plan, rec, eval, i), rec)
    decreases |plan| - i
  {
    if i < |plan| {
      EntriesSound(plan, rec, eval, i + 1);
      if Kept(plan[i], rec, eval) {
        TextsOfCons(plan[i], KeptFrom(plan, rec, eval, i + 1), rec);
      }
    }
  }

  // ---------------------------------------------------------------------
  // Reading the output back

  predicate IsDigit(c: char)
  {
    '0' <= c <= '9'
  }

  function DigitValue(c: char): nat
    requires IsDigit(c)
  {
    c as int - '0' as int
  }

  /** The number a string of decimal digits denotes. */
  function DigitsValue(d: string): nat
    requires forall k :: 0 <= k < |d| ==> IsDigit(d[k])
  {
    if d == [] then 0 else DigitsValue(d[..|d| - 1]) * 10 + DigitValue(d[|d| - 1])
  }

  lemma DigitCharValue(d: nat)
    requires d < 10
    ensures IsDigit(DigitChar(d)) && DigitValue(DigitChar(d)) == d
  {
  }

  /** An integer renders as its decimal digits without leading zeros. */
  lemma {:induction false} DecimalMeaning(n: nat)
    ensures |Decimal(n)| >= 1
    ensures forall k :: 0 <= k < |Decimal(n)| ==> IsDigit(Decimal(n)[k])
    ensures DigitsValue(Decimal(n)) == n
    ensures |Decimal(n)| > 1 ==> Decimal(n)[0] != '0'
  {
    if n < 10 {
      DigitCharValue(n);
      assert Decimal(n)[..0] == [];
    } else {
      DecimalMeaning(n / 10);
      DigitCharValue(n % 10);
      var d := Decimal(n);
      assert d[..|d| - 1] == Decimal(n / 10);
      if n / 10 < 10 {
        DigitCharValue(n / 10);
        assert d[0] == DigitChar(n / 10);
      }
    }
  }

  function Unescaped(c: char): Option<char>
  {
    if c == '"' then Some('"')
    else if c == '\\' then Some('\\')
    else if c == '0' then Some('\0')
    else if c == 't' then Some('\t')
    else if c == 'r' then Some('\r')
    else if c == 'n' then Some('\n')
    else None
  }

  /** Reads the body of a debug string literal back: a backslash begins a
      two-character escape, and a bare quote would have ended the literal. */
  function Unescape(t: string): Option<string>
    decreases |t|
  {
    if t == [] then Some("")
    else if t[0] == '\\' then
      if |t| < 2 then None
      else
        match Unescaped(t[1])
        case None => None
        case Some(c) => PrependChar(c, Unescape(t[2..]))
    else if t[0] == '"' then None
    else PrependChar(t[0], Unescape(t[1..]))
  }

  function PrependChar(c: char, rest: Option<string>): Option<string>
  {
    match rest
    case Some(s) => Some([c] + s)
    case None => None
  }

  lemma EscapeCharStep(c: char, rest: string)
    ensures Unescape(EscapeChar(c) + rest) == PrependChar(c, Unescape(rest))
  {
    var t := EscapeChar(c) + rest;
    if |EscapeChar(c)| == 2 {
      assert t[2..] == rest;
    } else {
      assert t[1..] == rest;
    }
  }

  /** Escaping loses nothing: the escaped body reads back as the string. */
  lemma {:induction false} EscapeRoundTrip(s: string)
    ensures Unescape(Escape(s)) == Some(s)
  {
    if s != [] {
      EscapeRoundTrip(s[1..]);
      EscapeCharStep(s[0], Escape(s[1..]));
      assert [s[0]] + s[1..] == s;
    }
  }

  /** A string none of whose characters needs escaping renders as itself. */
  lemma {:induction false} EscapeIdentity(s: string)
    requires forall k :: 0 <= k < |s| ==> s[k] !in "\"\\\0\t\r\n"
    ensures Escape(s) == s
  {
    if s != [] {
      EscapeIdentity(s[1..]);
      assert [s[0]] + s[1..] == s;
    }
  }

  /** A string field renders as a quoted literal whose body reads back as
      the string. */
  lemma DebugTextMeaning(s: string)
    ensures var t := Debug(Text(s));
      |t| >= 2 && t[0] == '"' && t[|t| - 1] == '"' && Unescape(t[1..|t| - 1]) == Some(s)
  {
    var t := Debug(Text(s));
    assert t[1..|t| - 1] == Escape(s);
    EscapeRoundTrip(s);
  }

  /** `s.split(sep)`: the pieces between separators, at least one. */
  function Split(s: string, sep: char): (r: seq<string>)
    ensures |r| >= 1
    decreases |s|
  {
    if s == [] then [""]
    else if s[0] == sep then [""] + Split(s[1..], sep)
    else
      var r := Split(s[1..], sep);
      [[s[0]] + r[0]] + r[1..]
  }

  lemma {:induction false} SplitPrefix(p: string, rest: string, sep: char)
    requires sep !in p
    ensures Split(p + rest, sep) == [p + Split(rest, sep)[0]] + Split(rest, sep)[1..]
    decreases |p|
  {
    if p == [] {
      assert p + rest == rest;
      assert [] + Split(rest, sep)[0] == Split(rest, sep)[0];
      assert [Split(rest, sep)[0]] + Split(rest, sep)[1..] == Split(rest, sep);
    } else {
      SplitPrefix(p[1..], rest, sep);
      assert (p + rest)[1..] == p[1..] + rest;
      assert [p[0]] + (p[1..] + Split(rest, sep)[0]) == p + Split(rest, sep)[0];
    }
  }

  /** Joining with "," is undone by splitting at ',' when no part holds a
      comma: the separator is a bare comma, with no space. */
  lemma {:induction false} JoinSplit(parts: seq<string>)
    requires |parts| >= 1
    requires forall k :: 0 <= k < |parts| ==> ',' !in parts[k]
    ensures Split(Join(",", parts), ',') == parts
  {
    if |parts| == 1 {
      SplitPrefix(parts[0], "", ',');
      assert parts[0] + "" == parts[0];
    } else {
      JoinSplit(parts[1..]);
      var tail := Join(",", parts[1..]);
      assert parts[0] + "," + tail == parts[0] + ([','] + tail);
      SplitPrefix(parts[0], [','] + tail, ',');
      assert ([','] + tail)[1..] == tail;
      assert parts[0] + "" == parts[0];
      assert [parts[0]] + parts[1..] == parts;
    }
  }

  /** The whole of `json`: it panics exactly when a predicate lets a `None`
      through; otherwise the output is `{ ` and ` }` around the kept
      entries' texts joined by commas, in plan order, and splitting its body at the commas
      gives those texts back when none holds a comma. */
  lemma RenderMeaning(plan: Plan, rec: seq<FieldValue>, eval: Evaluator)
    requires WellTyped(plan, rec)
    ensures Render(plan, rec, eval).Success? <==> forall k :: 0 <= k < |plan| ==> !Panics(plan[k], rec, eval)
    ensures Render(plan, rec, eval).Success? ==>
      var t := Render(plan, rec, eval).value;
      var kept := KeptFrom(plan, rec, eval, 0);
      (forall j :: 0 <= j < |kept| ==> Showable(kept[j], rec)) &&
      t == "{ " + Join(",", TextsOf(kept, rec)) + " }" &&
      |t| >= 4 && t[..2] == "{ " && t[|t| - 2..] == " }" &&
      (|kept| >= 1 && (forall j :: 0 <= j < |kept| ==> ',' !in TextsOf(kept, rec)[j]) ==>
        Split(t[2..|t| - 2], ',') == TextsOf(kept, rec))
  {
    EntriesSucceedsIff(plan, rec, eval, 0);
    if Render(plan, rec, eval).Success? {
      EntriesSound(plan, rec, eval, 0);
      var es := Entries(plan, rec, eval).value;
      var t := Render(plan, rec, eval).value;
      assert t == "{ " + Join(",", es) + " }";
      assert t[2..|t| - 2] == Join(",", es);
      var kept := KeptFrom(plan, rec, eval, 0);
      if |kept| >= 1 && (forall j :: 0 <= j < |kept| ==> ',' !in TextsOf(kept, rec)[j]) {
        JoinSplit(es);
      }
    }
  }
}
