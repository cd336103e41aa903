/** The documentation page's "operation variables" list.

    Given the formula of a documented rule, the page looks for a simple
    operation in the parsed formula (an operator entry with exactly two
    operands, at least one of them a variable reference), resolves those
    variable references against the documented rule's dotted name, and lists
    one link per resolved rule.

    The expression parser, the reference disambiguation of the rules
    library, the rule-name URL encoding and the title formatting belong to
    other code: they are function-typed parameters here. */
module OperationVariables {
  import opened Wrappers

  /** A fully or partially qualified rule name such as "trajet . distance". */
  type DottedName = string

  /** One operand node of a parsed operation. `variable` holds the referenced
      name for a variable reference, and is None for a constant or a nested
      operation (the JavaScript property is then absent). */
  datatype Operand = Operand(variable: Option<string>)

  /** The value stored under one key of the parser's output object. */
  datatype Value =
    | Array(items: seq<Operand>)  // the operand list of an operator
    | Text(chars: string)         // a string, as under the `variable` key of a bare reference
    | Record                      // any other object, such as a constant's description

  /** One `[key, value]` pair of `Object.entries(parsed)`. */
  datatype Entry = Entry(key: string, value: Value)

  /** The parser's output, as its entries in enumeration order. */
  type Parsed = seq<Entry>

  /** A resolved link of the rendered list: its target and its caption. */
  datatype Link = Link(href: string, caption: string)

  /** `el.variable != null`: any present name counts, the empty one too. */
  function IsVariable(o: Operand): (b: bool)
    ensures b <==> o != Operand(None)
  {
    o.variable.Some?
  }

  // ---------------------------------------------------------------------------
  // The steps of the search
  // ---------------------------------------------------------------------------

  /** `ops.some(el => el.variable != null)`, scanning from the left. */
  function AnyVariable(ops: seq<Operand>): (b: bool)
    ensures b <==> exists i :: 0 <= i < |ops| && IsVariable(ops[i])
  {
    if ops == [] then false
    else if IsVariable(ops[0]) then true
    else
      var rest := AnyVariable(ops[1..]);
      assert forall i :: 1 <= i < |ops| ==> ops[i] == ops[1..][i - 1];
      rest
  }

  /** The test handed to `find`: an operand list of exactly two operands, at
      least one of them a variable reference. A value that is not an array
      never qualifies. */
  function Qualifies(e: Entry): (b: bool)
    ensures b <==> e.value.Array? && |e.value.items| == 2
                   && (IsVariable(e.value.items[0]) || IsVariable(e.value.items[1]))
  {
    e.value.Array? && |e.value.items| == 2 && AnyVariable(e.value.items)
  }

  /** `Object.entries(parsed).find(...)`, giving the position of the entry
      found: the first entry, in enumeration order, that qualifies. */
  function FindFirst(entries: Parsed): (r: Option<nat>)
    ensures r.None? <==> forall i :: 0 <= i < |entries| ==> !Qualifies(entries[i])
    ensures r.Some? ==> r.value < |entries| && Qualifies(entries[r.value])
    ensures r.Some? ==> forall j :: 0 <= j < r.value ==> !Qualifies(entries[j])
  {
    if entries == [] then None
    else if Qualifies(entries[0]) then Some(0)
    else
      match FindFirst(entries[1..])
      case None => None
      case Some(k) => Some(k + 1)
  }

  /** `value.filter(el => el.variable != null)`: the variable references, in
      operand order. */
  function KeepVariables(ops: seq<Operand>): (r: seq<Operand>)
    ensures |r| <= |ops|
    ensures forall k :: 0 <= k < |r| ==> IsVariable(r[k])
    ensures forall o :: o in r <==> o in ops && IsVariable(o)
  {
    if ops == [] then []
    else
      assert ops == [ops[0]] + ops[1..];
      (if IsVariable(ops[0]) then [ops[0]] else []) + KeepVariables(ops[1..])
  }

  /** `.map(el => disambiguateReference(rules, dottedName, el.variable))`:
      each variable reference resolved against the same context. */
  function ResolveAll<R>(rules: R, context: DottedName, vars: seq<Operand>,
                         resolve: (R, DottedName, string) -> DottedName): (r: seq<DottedName>)
    requires forall k :: 0 <= k < |vars| ==> vars[k].variable.Some?
    ensures |r| == |vars|
    ensures forall k :: 0 <= k < |vars| ==> r[k] == resolve(rules, context, vars[k].variable.value)
  {
    if vars == [] then []
    else [resolve(rules, context, vars[0].variable.value)] + ResolveAll(rules, context, vars[1..], resolve)
  }

  /** `findSimpleOperationToLink` after parsing: None (JavaScript `null`) when
      no entry qualifies, and otherwise the resolved variable references of the
      first qualifying entry. */
  function SelectReferences<R>(parsed: Parsed, rules: R, dottedName: DottedName,
                               resolve: (R, DottedName, string) -> DottedName): (r: Option<seq<DottedName>>)
    ensures r.None? <==> forall i :: 0 <= i < |parsed| ==> !Qualifies(parsed[i])
    ensures r.Some? ==> 1 <= |r.value| <= 2
  {
    match FindFirst(parsed)
    case None => None
    case Some(i) =>
      var operation := parsed[i].value.items;
      var vars := KeepVariables(operation);
      assert operation[0] in operation && operation[1] in operation;
      assert IsVariable(operation[0]) || IsVariable(operation[1]);
      Some(ResolveAll(rules, dottedName, vars, resolve))
  }

  /** `findSimpleOperationToLink(expression, rules, dottedName)`. */
  function FindSimpleOperationToLink<R>(expression: string, rules: R, dottedName: DottedName,
                                        parse: string -> Parsed,
                                        resolve: (R, DottedName, string) -> DottedName): (r: Option<seq<DottedName>>)
    ensures r.None? <==> forall i :: 0 <= i < |parse(expression)| ==> !Qualifies(parse(expression)[i])
    ensures r.Some? ==> 1 <= |r.value| <= 2
  {
    SelectReferences(parse(expression), rules, dottedName, resolve)
  }

  // ---------------------------------------------------------------------------
  // Rendering
  // ---------------------------------------------------------------------------

  /** One list item per reference, in order, each linking to
      "/documentation/" followed by the encoded rule name. */
  function RenderLinks<R>(references: seq<DottedName>, rules: R,
                          encode: DottedName -> string,
                          title: (R, DottedName) -> string): (r: seq<Link>)
    ensures |r| == |references|
    ensures forall k :: 0 <= k < |references| ==>
              r[k] == Link("/documentation/" + encode(references[k]), title(rules, references[k]))
  {
    if references == [] then []
    else [Link("/documentation/" + encode(references[0]), title(rules, references[0]))]
         + RenderLinks(references[1..], rules, encode, title)
  }

  /** The `OperationVariables` component: nothing (None) when no simple
      operation was found, and otherwise the list of links. */
  function RenderOperationVariables<R>(formula: string, rules: R, dottedName: DottedName,
                                       parse: string -> Parsed,
                                       resolve: (R, DottedName, string) -> DottedName,
                                       encode: DottedName -> string,
                                       title: (R, DottedName) -> string): (r: Option<seq<Link>>)
    ensures var found := FindSimpleOperationToLink(formula, rules, dottedName, parse, resolve);
            && (r.None? <==> found.None?)
            && (r.Some? ==> |r.value| == |found.value| && 1 <= |r.value| <= 2)
            && (r.Some? ==> forall k :: 0 <= k < |r.value| ==>
                  r.value[k] == Link("/documentation/" + encode(found.value[k]), title(rules, found.value[k])))
  {
    match FindSimpleOperationToLink(formula, rules, dottedName, parse, resolve)
    case None => None
    case Some(references) => Some(RenderLinks(references, rules, encode, title))
  }

  // ---------------------------------------------------------------------------
  // Properties of the search
  // ---------------------------------------------------------------------------

  /** The filter distributes over concatenation: it keeps the variable
      references of each part, in order. */
  lemma {:induction false} KeepVariablesAppend(a: seq<Operand>, b: seq<Operand>)
    ensures KeepVariables(a + b) == KeepVariables(a) + KeepVariables(b)
  {
    if a == [] {
      assert a + b == b;
    } else {
      assert (a + b)[0] == a[0];
      assert (a + b)[1..] == a[1..] + b;
      KeepVariablesAppend(a[1..], b);
    }
  }

  /** On a two-operand list the filter keeps the first operand if it is a
      variable, then the second if it is one. */
  lemma KeepVariablesOfPair(x: Operand, y: Operand)
    ensures KeepVariables([x, y]) ==
            (if IsVariable(x) then [x] else []) + (if IsVariable(y) then [y] else [])
  {
  }

  /** The entry found is the only one that qualifies with no qualifying entry
      before it. */
  lemma FindFirstIsFirstQualifying(entries: Parsed, i: nat)
    requires i < |entries| && Qualifies(entries[i])
    requires forall j :: 0 <= j < i ==> !Qualifies(entries[j])
    ensures FindFirst(entries) == Some(i)
  {
  }

  /** Resolving the variable operands of a two-operand list: the first
      operand's name if it is a variable, then the second's. */
  lemma ResolvePair<R>(rules: R, context: DottedName, x: Operand, y: Operand,
                       resolve: (R, DottedName, string) -> DottedName)
    ensures ResolveAll(rules, context, KeepVariables([x, y]), resolve) ==
            (if IsVariable(x) then [resolve(rules, context, x.variable.value)] else [])
            + (if IsVariable(y) then [resolve(rules, context, y.variable.value)] else [])
  {
    KeepVariablesOfPair(x, y);
  }

  /** The result is that of the first qualifying entry: its variable operands,
      in operand order, each resolved against the caller's dotted name; a
      non-variable operand contributes nothing. */
  lemma FirstQualifyingOperationResolved<R>(parsed: Parsed, rules: R, dottedName: DottedName,
                                            resolve: (R, DottedName, string) -> DottedName, i: nat)
    requires i < |parsed| && Qualifies(parsed[i])
    requires forall j :: 0 <= j < i ==> !Qualifies(parsed[j])
    ensures var x, y := parsed[i].value.items[0], parsed[i].value.items[1];
            SelectReferences(parsed, rules, dottedName, resolve) ==
              Some((if IsVariable(x) then [resolve(rules, dottedName, x.variable.value)] else [])
                   + (if IsVariable(y) then [resolve(rules, dottedName, y.variable.value)] else []))
  {
    FindFirstIsFirstQualifying(parsed, i);
    var items := parsed[i].value.items;
    assert items == [items[0], items[1]];
    ResolvePair(rules, dottedName, items[0], items[1], resolve);
  }

  /** Conversely, a result that is present comes from some entry that
      qualifies while every earlier entry does not. */
  lemma ResultFromFirstQualifying<R>(parsed: Parsed, rules: R, dottedName: DottedName,
                                     resolve: (R, DottedName, string) -> DottedName)
    requires SelectReferences(parsed, rules, dottedName, resolve).Some?
    ensures exists i :: 0 <= i < |parsed| && Qualifies(parsed[i])
                        && (forall j :: 0 <= j < i ==> !Qualifies(parsed[j]))
                        && SelectReferences(parsed, rules, dottedName, resolve)
                           == Some(ResolveAll(rules, dottedName, KeepVariables(parsed[i].value.items), resolve))
  {
  }

  /** An entry that does not qualify at the head is skipped and the search
      goes on with the later entries; this covers a two-operand entry with no
      variable reference, which does not force an absent result. */
  lemma SkipUnqualifiedHead<R>(parsed: Parsed, rules: R, dottedName: DottedName,
                               resolve: (R, DottedName, string) -> DottedName)
    requires |parsed| > 0 && !Qualifies(parsed[0])
    ensures SelectReferences(parsed, rules, dottedName, resolve)
            == SelectReferences(parsed[1..], rules, dottedName, resolve)
  {
  }

  /** Removing an entry that does not qualify, wherever it stands, leaves the
      result unchanged: such an entry (an operand list whose length is not 2,
      two non-variable operands, or a value that is not a list) is never
      selected. */
  lemma {:induction false} RemoveUnqualifiedEntry<R>(a: Parsed, e: Entry, b: Parsed, rules: R,
                                                     dottedName: DottedName,
                                                     resolve: (R, DottedName, string) -> DottedName)
    requires !Qualifies(e)
    ensures SelectReferences(a + [e] + b, rules, dottedName, resolve)
            == SelectReferences(a + b, rules, dottedName, resolve)
  {
    if a == [] {
      assert a + [e] + b == [e] + b && a + b == b;
      assert ([e] + b)[1..] == b;
      SkipUnqualifiedHead([e] + b, rules, dottedName, resolve);
    } else {
      var whole, shorter := a + [e] + b, a + b;
      assert whole[0] == a[0] && shorter[0] == a[0];
      if Qualifies(a[0]) {
        FirstQualifyingOperationResolved(whole, rules, dottedName, resolve, 0);
        FirstQualifyingOperationResolved(shorter, rules, dottedName, resolve, 0);
      } else {
        assert whole[1..] == a[1..] + [e] + b;
        assert shorter[1..] == a[1..] + b;
        SkipUnqualifiedHead(whole, rules, dottedName, resolve);
        SkipUnqualifiedHead(shorter, rules, dottedName, resolve);
        RemoveUnqualifiedEntry(a[1..], e, b, rules, dottedName, resolve);
      }
    }
  }

  /** An entry whose value is an operand list of any length other than 2 is
      never the one found, whatever variables it holds. */
  lemma WrongArityNeverSelected(parsed: Parsed, i: nat)
    requires i < |parsed| && parsed[i].value.Array? && |parsed[i].value.items| != 2
    ensures FindFirst(parsed) != Some(i)
  {
  }

  /** Disambiguation is only ever asked about the caller's dotted name: two
      resolvers that agree on that context give the same result. */
  lemma OnlyCallerContextConsulted<R>(parsed: Parsed, rules: R, dottedName: DottedName,
                                      resolve1: (R, DottedName, string) -> DottedName,
                                      resolve2: (R, DottedName, string) -> DottedName)
    requires forall n :: resolve1(rules, dottedName, n) == resolve2(rules, dottedName, n)
    ensures SelectReferences(parsed, rules, dottedName, resolve1)
            == SelectReferences(parsed, rules, dottedName, resolve2)
  {
    match FindFirst(parsed)
    case None =>
    case Some(i) =>
      var vars := KeepVariables(parsed[i].value.items);
      var r1, r2 := ResolveAll(rules, dottedName, vars, resolve1), ResolveAll(rules, dottedName, vars, resolve2);
      assert forall k :: 0 <= k < |vars| ==> r1[k] == r2[k];
      assert r1 == r2;
  }

  /** A product of two variable references, "distance * vitesse", documented
      under "trajet . duree": both names are resolved in that context, in
      operand order. */
  lemma DistanceTimesSpeed<R>(rules: R, resolve: (R, DottedName, string) -> DottedName)
    requires resolve(rules, "trajet . duree", "distance") == "trajet . distance"
    requires resolve(rules, "trajet . duree", "vitesse") == "trajet . vitesse"
    ensures SelectReferences([Entry("*", Array([Operand(Some("distance")), Operand(Some("vitesse"))]))],
                             rules, "trajet . duree", resolve)
            == Some(["trajet . distance", "trajet . vitesse"])
  {
    var parsed := [Entry("*", Array([Operand(Some("distance")), Operand(Some("vitesse"))]))];
    FirstQualifyingOperationResolved(parsed, rules, "trajet . duree", resolve, 0);
    assert ["trajet . distance"] + ["trajet . vitesse"] == ["trajet . distance", "trajet . vitesse"];
  }

  /** A product of two constants, "2 * 3", has no variable reference to link:
      the result is absent. */
  lemma ConstantsOnlyAbsent<R>(rules: R, dottedName: DottedName,
                               resolve: (R, DottedName, string) -> DottedName)
    ensures SelectReferences([Entry("*", Array([Operand(None), Operand(None)]))], rules, dottedName, resolve)
            == None
  {
  }

  // ---------------------------------------------------------------------------
  // The search as written: `v.length === 2 && v.some(...)` on any value
  // ---------------------------------------------------------------------------

  /** What the source's `find` callback throws. */
  datatype JsError = TypeError

  /** A value on which the source's test throws: a string of two characters
      has `length === 2`, and a string has no `some` method. */
  function ThrowsOn(e: Entry): (b: bool)
    ensures b ==> !Qualifies(e)
  {
    e.value.Text? && |e.value.chars| == 2
  }

  /** Some entry throws before any entry qualifies: the search as written
      reaches a throwing value before it finds anything. */
  predicate ThrowsBeforeFound(entries: Parsed) {
    exists i :: 0 <= i < |entries| && ThrowsOn(entries[i])
                && forall j :: 0 <= j < i ==> !Qualifies(entries[j])
  }

  /** The `find` callback exactly as written, on every kind of value: an
      object's `length` is undefined (not 2), a string's is its length, and
      only an array has `some`. */
  function QualifiesAsWritten(e: Entry): (r: Result<bool, JsError>)
    ensures r.Failure? <==> ThrowsOn(e)
    ensures r.Success? ==> (r.value <==> Qualifies(e))
  {
    match e.value
    case Array(items) => Success(|items| == 2 && AnyVariable(items))
    case Text(chars) => if |chars| == 2 then Failure(TypeError) else Success(false)
    case Record => Success(false)
  }

  /** `find` with the callback as written: it stops at the first entry that
      qualifies or throws. Whenever it returns, it returns what the corrected
      search returns; it throws exactly when a two-character string comes
      before every qualifying entry. */
  function FindFirstAsWritten(entries: Parsed): (r: Result<Option<nat>, JsError>)
    ensures r.Success? ==> r.value == FindFirst(entries)
    ensures r.Failure? <==> ThrowsBeforeFound(entries)
  {
    assert forall i :: 1 <= i < |entries| ==> entries[i] == entries[1..][i - 1];
    if entries == [] then Success(None)
    else
      match QualifiesAsWritten(entries[0])
      case Failure(err) => Failure(err)
      case Success(found) =>
        if found then Success(Some(0))
        else
          match FindFirstAsWritten(entries[1..])
          case Failure(err) => Failure(err)
          case Success(None) => Success(None)
          case Success(Some(k)) => Success(Some(k + 1))
  }

  /** Lines 10 to 19 as written: the selection throws exactly when a
      two-character string comes before every qualifying entry, and otherwise
      returns what SelectReferences returns. */
  function SelectReferencesAsWritten<R>(parsed: Parsed, rules: R, dottedName: DottedName,
                                        resolve: (R, DottedName, string) -> DottedName)
    : (r: Result<Option<seq<DottedName>>, JsError>)
    ensures r.Success? ==> r.value == SelectReferences(parsed, rules, dottedName, resolve)
    ensures r.Failure? <==> ThrowsBeforeFound(parsed)
  {
    match FindFirstAsWritten(parsed)
    case Failure(err) => Failure(err)
    case Success(None) => Success(None)
    case Success(Some(i)) =>
      Success(Some(ResolveAll(rules, dottedName, KeepVariables(parsed[i].value.items), resolve)))
  }

  /** The search as written throws whenever a two-character string comes
      before every qualifying entry. */
  lemma {:induction false} FindFirstAsWrittenThrows(entries: Parsed, i: nat)
    requires i < |entries| && ThrowsOn(entries[i])
    requires forall j :: 0 <= j < i ==> !Qualifies(entries[j]) && !ThrowsOn(entries[j])
    ensures FindFirstAsWritten(entries) == Failure(TypeError)
  {
    if i > 0 {
      assert !Qualifies(entries[0]) && !ThrowsOn(entries[0]);
      assert forall j :: 0 <= j < i - 1 ==> entries[1..][j] == entries[j + 1];
      FindFirstAsWrittenThrows(entries[1..], i - 1);
    }
  }

  /** The parser's output for a formula that is a bare reference to a rule
      with a two-letter name, `{variable: "ab"}`, makes the code as written
      throw, where the evident intent is an absent result. */
  lemma TwoLetterReferenceThrows<R>(rules: R, dottedName: DottedName,
                                    resolve: (R, DottedName, string) -> DottedName)
    ensures var parsed := [Entry("variable", Text("ab"))];
            && SelectReferencesAsWritten(parsed, rules, dottedName, resolve) == Failure(TypeError)
            && SelectReferences(parsed, rules, dottedName, resolve) == None
  {
  }
}
