/** The form validators of the web front end: `isEmpty`, the `FIELD_INFOS` rules,
    `validateField`, `validateFields` and `validateUpdate`. The `errors` object the
    caller owns is an `ErrorBag`; the validators add messages to it in place. Each
    validator is a method proved equal to a pure specification (`FieldCheck`,
    `FieldsCheck`, `UpdateCheck`) whose contract states which inputs it accepts. */
module Validation {
  import opened Wrappers
  import opened Ordered
  import opened Patterns

  /** A request-body value: missing, `null`, or a string (form bodies carry strings). */
  datatype JsValue = Undefined | Null | Str(s: string)

  /** A request body; a name that is not in the map reads as `undefined`. */
  type Params = map<string, JsValue>

  function Lookup(params: Params, name: string): JsValue
  {
    if name in params then params[name] else Undefined
  }

  /** JavaScript truthiness (the empty string is falsy). */
  predicate Truthy(v: JsValue) { v.Str? && |v.s| > 0 }

  /** `String(v)`, the conversion `RegExp.prototype.test` applies to its argument. */
  function ToJsString(v: JsValue): string
  {
    match v
    case Undefined => "undefined"
    case Null => "null"
    case Str(s) => s
  }

  /** The WhiteSpace and LineTerminator code points that `String.prototype.trim` strips. */
  predicate IsJsSpace(c: char)
  {
    c == ' ' || c == '\t' || c == '\n' || c == '\r' || c == '\U{B}' || c == '\U{C}'
    || c == '\U{A0}' || c == '\U{1680}' || ('\U{2000}' <= c <= '\U{200A}')
    || c == '\U{2028}' || c == '\U{2029}' || c == '\U{202F}' || c == '\U{205F}'
    || c == '\U{3000}' || c == '\U{FEFF}'
  }

  /** Drops leading white space: the result is the longest suffix that does not
      start with white space, and everything dropped is white space. */
  function TrimStart(s: string): (r: string)
    ensures |r| <= |s| && r == s[|s| - |r|..]
    ensures r == [] || !IsJsSpace(r[0])
    ensures forall i :: 0 <= i < |s| - |r| ==> IsJsSpace(s[i])
    decreases |s|
  {
    if s != [] && IsJsSpace(s[0]) then TrimStart(s[1..]) else s
  }

  /** Drops trailing white space, symmetrically to `TrimStart`. */
  function TrimEnd(s: string): (r: string)
    ensures |r| <= |s| && r == s[..|r|]
    ensures r == [] || !IsJsSpace(r[|r| - 1])
    ensures forall i :: |r| <= i < |s| ==> IsJsSpace(s[i])
    decreases |s|
  {
    if s != [] && IsJsSpace(s[|s| - 1]) then TrimEnd(s[..|s| - 1]) else s
  }

  function Trim(s: string): string
  {
    TrimEnd(TrimStart(s))
  }

  /** `isEmpty`: undefined, null, or a string that trims to nothing. */
  predicate IsEmpty(v: JsValue)
  {
    v.Undefined? || v.Null? || (v.Str? && |Trim(v.s)| == 0)
  }

  /** A string value with at least one character that is not white space. */
  predicate Given(v: JsValue)
  {
    v.Str? && exists i :: 0 <= i < |v.s| && !IsJsSpace(v.s[i])
  }

  /** `isEmpty` holds exactly for undefined, null and all-white-space strings. */
  lemma IsEmptyBlank(v: JsValue)
    ensures IsEmpty(v) <==> !Given(v)
  {
    if v.Str? {
      var s := v.s;
      var t := TrimStart(s);
      if Given(v) {
        var i :| 0 <= i < |s| && !IsJsSpace(s[i]);
        assert i >= |s| - |t|;
        assert t[i - (|s| - |t|)] == s[i];
        assert |t| > 0 && !IsJsSpace(t[0]);
        assert TrimEnd(t)[0] == t[0];
      }
    }
  }

  /** The widgets `FIELD_INFOS` describes. */
  datatype Field = ActField | NameField | CellIdField | FormulaField

  /** The widget's name in the request body and in `errors`. */
  function Key(f: Field): string
  {
    match f
    case ActField => "ssAct"
    case NameField => "ssName"
    case CellIdField => "cellId"
    case FormulaField => "formula"
  }

  function FriendlyName(f: Field): string
  {
    match f
    case ActField => "Action"
    case NameField => "Spreadsheet Name"
    case CellIdField => "Cell ID"
    case FormulaField => "cell formula"
  }

  /** `ACTS`, in insertion order. */
  const Acts: seq<string> := ["clear", "deleteCell", "updateCell", "copyCell"]
  const ActsError := "Action must be one of clear, deleteCell, updateCell, copyCell."

  function BadNameMessage(val: string): string
  {
    "\n      Bad spreadsheet name \"" + val + "\": must contain only alphanumeric\n"
    + "      characters, underscore, hyphen or space.\n    "
  }

  function BadCellIdMessage(val: string): string
  {
    "\n      Bad cell id \"" + val + "\": must consist of a letter followed by one\n"
    + "      or two digits.\n    "
  }

  /** `FIELD_INFOS[f].err(val)`: the message for a value the field rejects; `formula`
      has no rule. */
  function FieldError(f: Field, val: string): Option<string>
  {
    match f
    case ActField => if val in Acts then None else Some(ActsError)
    case NameField => if Matches(NamePattern, val, false) then None else Some(BadNameMessage(val))
    case CellIdField => if Matches(CellIdPattern, val, true) then None else Some(BadCellIdMessage(val))
    case FormulaField => None
  }

  /** What each field accepts, stated directly. */
  predicate Accepts(f: Field, val: string)
  {
    match f
    case ActField => val in Acts
    case NameField => NameShape(val)
    case CellIdField => CellIdShape(val)
    case FormulaField => true
  }

  function RequiredMessage(f: Field): string
  {
    "The " + FriendlyName(f) + " field must be specified"
  }

  function ForbiddenMessage(f: Field, act: string): string
  {
    "\n\t" + FriendlyName(f) + " must not be specified\n        for " + act + " action\n      "
  }

  /** Whether `validateField` accepts the field's value in `params`. */
  predicate FieldPasses(f: Field, params: Params)
  {
    var v := Lookup(params, Key(f));
    !IsEmpty(v) && FieldError(f, ToJsString(v)).None?
  }

  /** A field passes exactly when its value is a string with a non-blank character
      that satisfies the field's rule. */
  lemma FieldPassesAccepts(f: Field, params: Params)
    ensures FieldPasses(f, params) <==> Given(Lookup(params, Key(f))) && Accepts(f, Lookup(params, Key(f)).s)
  {
    var v := Lookup(params, Key(f));
    IsEmptyBlank(v);
    CellIdPatternMatches(ToJsString(v));
    NamePatternMatches(ToJsString(v));
  }

  /** A cell id the form accepts; such a value is never blank. */
  predicate ValidCellId(v: JsValue)
  {
    v.Str? && CellIdShape(v.s)
  }

  lemma CellIdPasses(params: Params)
    ensures FieldPasses(CellIdField, params) <==> ValidCellId(Lookup(params, Key(CellIdField)))
  {
    var v := Lookup(params, Key(CellIdField));
    FieldPassesAccepts(CellIdField, params);
    if ValidCellId(v) {
      assert !IsJsSpace(v.s[0]);
    }
  }

  /** The outcome of a validator: its boolean result and the `errors` object after it. */
  datatype Outcome = Outcome(ok: bool, errors: Dict<string, string>)

  /** `validateField(f, params, errors)`. On rejection exactly the field's own entry
      of `errors` is set (to the "must be specified" message when the value is
      empty); on acceptance `errors` is untouched. */
  function FieldCheck(f: Field, params: Params, errs: Dict<string, string>): (r: Outcome)
    ensures r.ok == FieldPasses(f, params)
    ensures r.ok ==> r.errors == errs
    ensures !r.ok ==> r.errors.keys == Add(errs.keys, Key(f)) && r.errors.Get(Key(f)).Some?
    ensures !r.ok ==> forall k :: k != Key(f) ==> r.errors.Get(k) == errs.Get(k)
    ensures IsEmpty(Lookup(params, Key(f))) ==> r.errors.Get(Key(f)) == Some(RequiredMessage(f))
    ensures errs.Valid() ==> r.errors.Valid()
  {
    var v := Lookup(params, Key(f));
    if IsEmpty(v) then Outcome(false, errs.Put(Key(f), RequiredMessage(f)))
    else match FieldError(f, ToJsString(v))
      case Some(m) => Outcome(false, errs.Put(Key(f), m))
      case None => Outcome(true, errs)
  }

  /** The first loop of `validateFields`, over the forbidden fields `fs`. */
  function Forbid(act: string, fs: seq<Field>, params: Params, errs: Dict<string, string>): (r: Dict<string, string>)
    ensures errs.Valid() ==> r.Valid()
    decreases |fs|
  {
    if fs == [] then errs
    else
      var e := Forbid(act, fs[..|fs| - 1], params, errs);
      var f := fs[|fs| - 1];
      if Truthy(Lookup(params, Key(f))) then e.Put(Key(f), ForbiddenMessage(f, act)) else e
  }

  /** The first loop leaves `errors` empty exactly when it was empty and no
      forbidden field is present. */
  lemma {:induction false} ForbidEmpty(act: string, fs: seq<Field>, params: Params, errs: Dict<string, string>)
    ensures Forbid(act, fs, params, errs).keys == []
        <==> errs.keys == [] && forall i :: 0 <= i < |fs| ==> !Truthy(Lookup(params, Key(fs[i])))
    decreases |fs|
  {
    if fs != [] {
      var init := fs[..|fs| - 1];
      ForbidEmpty(act, init, params, errs);
      assert forall i :: 0 <= i < |init| ==> init[i] == fs[i];
      var f := fs[|fs| - 1];
      if Truthy(Lookup(params, Key(f))) {
        assert Key(f) in Forbid(act, fs, params, errs).keys;
      }
    }
  }

  lemma KeyInjective(f: Field, g: Field)
    ensures Key(f) == Key(g) ==> f == g
  {
    if f != g {
      assert |Key(f)| != |Key(g)| || Key(f)[0] != Key(g)[0];
    }
  }

  /** Each forbidden field that is present gets its "must not be specified" message. */
  lemma {:induction false} ForbidAt(act: string, fs: seq<Field>, params: Params, errs: Dict<string, string>, i: int)
    requires 0 <= i < |fs| && Truthy(Lookup(params, Key(fs[i])))
    ensures Forbid(act, fs, params, errs).Get(Key(fs[i])) == Some(ForbiddenMessage(fs[i], act))
    decreases |fs|
  {
    var init, f := fs[..|fs| - 1], fs[|fs| - 1];
    if i < |fs| - 1 {
      assert init[i] == fs[i];
      ForbidAt(act, init, params, errs, i);
      KeyInjective(f, fs[i]);
    }
  }

  /** The first loop touches only the entries of the forbidden fields. */
  lemma {:induction false} ForbidElse(act: string, fs: seq<Field>, params: Params, errs: Dict<string, string>, k: string)
    requires forall i :: 0 <= i < |fs| ==> Key(fs[i]) != k
    ensures Forbid(act, fs, params, errs).Get(k) == errs.Get(k)
    decreases |fs|
  {
    if fs != [] {
      var init := fs[..|fs| - 1];
      assert forall i :: 0 <= i < |init| ==> init[i] == fs[i];
      ForbidElse(act, init, params, errs, k);
      assert Key(fs[|fs| - 1]) != k;
    }
  }

  /** The second loop of `validateFields`: `validateField` on each required field in
      turn. */
  function Require(fs: seq<Field>, params: Params, errs: Dict<string, string>): (r: Dict<string, string>)
    ensures errs.Valid() ==> r.Valid()
    decreases |fs|
  {
    if fs == [] then errs
    else FieldCheck(fs[|fs| - 1], params, Require(fs[..|fs| - 1], params, errs)).errors
  }

  /** The second loop leaves `errors` empty exactly when it was empty and every
      required field passes. */
  lemma {:induction false} RequireEmpty(fs: seq<Field>, params: Params, errs: Dict<string, string>)
    ensures Require(fs, params, errs).keys == []
        <==> errs.keys == [] && forall i :: 0 <= i < |fs| ==> FieldPasses(fs[i], params)
    decreases |fs|
  {
    if fs != [] {
      var init, f := fs[..|fs| - 1], fs[|fs| - 1];
      RequireEmpty(init, params, errs);
      var e := Require(init, params, errs);
      assert Require(fs, params, errs) == FieldCheck(f, params, e).errors;
      if FieldPasses(f, params) {
        assert Require(fs, params, errs) == e;
        forall i | 0 <= i < |fs| && i != |fs| - 1 ensures init[i] == fs[i] { }
      } else {
        assert Key(f) in Require(fs, params, errs).keys;
      }
    }
  }

  /** A required field that fails has an entry after the second loop. */
  lemma {:induction false} RequireAt(fs: seq<Field>, params: Params, errs: Dict<string, string>, i: int)
    requires 0 <= i < |fs| && !FieldPasses(fs[i], params)
    ensures Key(fs[i]) in Require(fs, params, errs).keys
    decreases |fs|
  {
    var init := fs[..|fs| - 1];
    if i < |fs| - 1 {
      assert init[i] == fs[i];
      RequireAt(init, params, errs, i);
    }
  }

  /** The second loop touches only the entries of the required fields. */
  lemma {:induction false} RequireElse(fs: seq<Field>, params: Params, errs: Dict<string, string>, k: string)
    requires forall i :: 0 <= i < |fs| ==> Key(fs[i]) != k
    ensures Require(fs, params, errs).Get(k) == errs.Get(k)
    decreases |fs|
  {
    if fs != [] {
      var init := fs[..|fs| - 1];
      assert forall i :: 0 <= i < |init| ==> init[i] == fs[i];
      RequireElse(init, params, errs, k);
      assert Key(fs[|fs| - 1]) != k;
    }
  }

  /** `validateFields(act, required, forbidden, params, errors)`. */
  function FieldsCheck(act: string, required: seq<Field>, forbidden: seq<Field>, params: Params,
                       errs: Dict<string, string>): (r: Outcome)
    ensures errs.Valid() ==> r.errors.Valid()
  {
    var e := Require(required, params, Forbid(act, forbidden, params, errs));
    Outcome(|e.keys| == 0, e)
  }

  /** `validateFields` is true exactly when `errors` was empty to begin with, no
      forbidden field is present and every required field passes. */
  lemma FieldsCheckOk(act: string, required: seq<Field>, forbidden: seq<Field>, params: Params,
                      errs: Dict<string, string>)
    ensures FieldsCheck(act, required, forbidden, params, errs).ok
        <==> errs.keys == []
             && (forall i :: 0 <= i < |forbidden| ==> !Truthy(Lookup(params, Key(forbidden[i]))))
             && (forall i :: 0 <= i < |required| ==> FieldPasses(required[i], params))
  {
    ForbidEmpty(act, forbidden, params, errs);
    RequireEmpty(required, params, Forbid(act, forbidden, params, errs));
  }

  /** A present forbidden field that is not also required is reported with its
      "must not be specified" message. */
  lemma FieldsCheckForbidden(act: string, required: seq<Field>, forbidden: seq<Field>, params: Params,
                             errs: Dict<string, string>, i: int)
    requires 0 <= i < |forbidden| && Truthy(Lookup(params, Key(forbidden[i])))
    requires forall j :: 0 <= j < |required| ==> required[j] != forbidden[i]
    ensures FieldsCheck(act, required, forbidden, params, errs).errors.Get(Key(forbidden[i]))
         == Some(ForbiddenMessage(forbidden[i], act))
  {
    ForbidAt(act, forbidden, params, errs, i);
    forall j | 0 <= j < |required| ensures Key(required[j]) != Key(forbidden[i]) {
      KeyInjective(required[j], forbidden[i]);
    }
    RequireElse(required, params, Forbid(act, forbidden, params, errs), Key(forbidden[i]));
  }

  /** Every required field that fails is reported. */
  lemma FieldsCheckRequired(act: string, required: seq<Field>, forbidden: seq<Field>, params: Params,
                            errs: Dict<string, string>, i: int)
    requires 0 <= i < |required| && !FieldPasses(required[i], params)
    ensures Key(required[i]) in FieldsCheck(act, required, forbidden, params, errs).errors.keys
  {
    RequireAt(required, params, Forbid(act, forbidden, params, errs), i);
  }

  /** `update.ssAct ?? ''` */
  function ActOf(update: Params): string
  {
    match Lookup(update, Key(ActField))
    case Str(s) => s
    case _ => ""
  }

  /** The cases of the `switch` in `validateUpdate`. */
  datatype Action = Missing | Clear | DeleteCell | CopyCell | UpdateCell | Unknown(name: string)

  /** Which `switch` case an action string selects: the empty string is a missing
      action, the four names of `ACTS` their own cases, anything else unknown. */
  function ParseAct(act: string): (a: Action)
    ensures a.Missing? <==> act == ""
    ensures a.Unknown? <==> act != "" && act !in Acts
    ensures a.Unknown? ==> a.name == act
  {
    if act == "" then Missing
    else if act == "clear" then Clear
    else if act == "deleteCell" then DeleteCell
    else if act == "copyCell" then CopyCell
    else if act == "updateCell" then UpdateCell
    else Unknown(act)
  }

  /** The fields each action needs, stated directly: `clear` takes neither a cell
      id nor a formula, `deleteCell` a valid cell id and no formula, `updateCell` a
      valid cell id and a non-blank formula, `copyCell` two valid cell ids. */
  predicate ActFieldsOk(a: Action, update: Params)
  {
    var cell, formula := Lookup(update, Key(CellIdField)), Lookup(update, Key(FormulaField));
    match a
    case Clear => !Truthy(cell) && !Truthy(formula)
    case DeleteCell => ValidCellId(cell) && !Truthy(formula)
    case UpdateCell => ValidCellId(cell) && Given(formula)
    case CopyCell => ValidCellId(cell) && ValidCellId(formula)
    case _ => false
  }

  /** `validateUpdate(update, errors)`; a missing or unknown action is rejected
      with an `ssAct` message. */
  function UpdateCheck(update: Params, errs: Dict<string, string>): (r: Outcome)
    ensures errs.Valid() ==> r.errors.Valid()
    ensures ActOf(update) == "" ==> !r.ok && r.errors.Get(Key(ActField)) == Some("Action must be specified.")
    ensures ActOf(update) != "" && ActOf(update) !in Acts
            ==> !r.ok && r.errors.Get(Key(ActField)) == Some("Invalid action \"" + ActOf(update))
  {
    match ParseAct(ActOf(update))
    case Missing => Outcome(false, errs.Put(Key(ActField), "Action must be specified."))
    case Clear => FieldsCheck("Clear", [], [CellIdField, FormulaField], update, errs)
    case DeleteCell => FieldsCheck("Delete Cell", [CellIdField], [FormulaField], update, errs)
    case CopyCell =>
      var o := FieldsCheck("Copy Cell", [CellIdField, FormulaField], [], update, errs);
      if !o.ok then o
      else if FieldError(CellIdField, ToJsString(Lookup(update, Key(FormulaField)))).None? then o
      else Outcome(false, o.errors.Put(Key(FormulaField), "Copy requires formula to specify a cell ID"))
    case UpdateCell => FieldsCheck("Update Cell", [CellIdField, FormulaField], [], update, errs)
    case Unknown(act) => Outcome(false, errs.Put(Key(ActField), "Invalid action \"" + act))
  }

  /** `validateUpdate` accepts exactly when `errors` starts empty, the action is one
      of `ACTS` and the fields are what that action needs. */
  lemma UpdateAccepts(update: Params, errs: Dict<string, string>)
    ensures UpdateCheck(update, errs).ok
        <==> errs.keys == [] && ActFieldsOk(ParseAct(ActOf(update)), update)
  {
    match ParseAct(ActOf(update))
    case Clear => ClearAccepts(update, errs);
    case DeleteCell => DeleteAccepts(update, errs);
    case UpdateCell => UpdateCellAccepts(update, errs);
    case CopyCell => CopyAccepts(update, errs);
    case _ =>
  }

  lemma ClearAccepts(update: Params, errs: Dict<string, string>)
    requires ParseAct(ActOf(update)) == Clear
    ensures UpdateCheck(update, errs).ok <==> errs.keys == [] && ActFieldsOk(Clear, update)
  {
    var fb := [CellIdField, FormulaField];
    var o := FieldsCheck("Clear", [], fb, update, errs);
    assert UpdateCheck(update, errs) == o;
    assert o.ok <==> errs.keys == [] && !Truthy(Lookup(update, Key(CellIdField)))
                     && !Truthy(Lookup(update, Key(FormulaField))) by {
      FieldsCheckOk("Clear", [], fb, update, errs);
      assert fb[0] == CellIdField && fb[1] == FormulaField;
    }
  }

  lemma DeleteAccepts(update: Params, errs: Dict<string, string>)
    requires ParseAct(ActOf(update)) == DeleteCell
    ensures UpdateCheck(update, errs).ok <==> errs.keys == [] && ActFieldsOk(DeleteCell, update)
  {
    var rq, fb := [CellIdField], [FormulaField];
    var o := FieldsCheck("Delete Cell", rq, fb, update, errs);
    assert UpdateCheck(update, errs) == o;
    assert o.ok <==> errs.keys == [] && FieldPasses(CellIdField, update)
                     && !Truthy(Lookup(update, Key(FormulaField))) by {
      FieldsCheckOk("Delete Cell", rq, fb, update, errs);
      assert rq[0] == CellIdField && fb[0] == FormulaField;
    }
    CellIdPasses(update);
  }

  lemma UpdateCellAccepts(update: Params, errs: Dict<string, string>)
    requires ParseAct(ActOf(update)) == UpdateCell
    ensures UpdateCheck(update, errs).ok <==> errs.keys == [] && ActFieldsOk(UpdateCell, update)
  {
    var rq := [CellIdField, FormulaField];
    var o := FieldsCheck("Update Cell", rq, [], update, errs);
    assert UpdateCheck(update, errs) == o;
    assert o.ok <==> errs.keys == [] && FieldPasses(CellIdField, update) && FieldPasses(FormulaField, update) by {
      FieldsCheckOk("Update Cell", rq, [], update, errs);
      assert rq[0] == CellIdField && rq[1] == FormulaField;
    }
    CellIdPasses(update);
    FormulaPasses(update);
  }

  lemma FormulaPasses(params: Params)
    ensures FieldPasses(FormulaField, params) <==> Given(Lookup(params, Key(FormulaField)))
  {
    FieldPassesAccepts(FormulaField, params);
  }

  /** A formula that passes `validateField` and the cell-id pattern is a valid
      cell id, and conversely. */
  lemma FormulaCellId(v: JsValue)
    ensures Given(v) && Matches(CellIdPattern, ToJsString(v), true) <==> ValidCellId(v)
  {
    CellIdPatternMatches(ToJsString(v));
    if ValidCellId(v) {
      assert !IsJsSpace(v.s[0]);
    }
  }

  /** `copyCell` additionally needs the formula to be a cell id itself. */
  lemma CopyAccepts(update: Params, errs: Dict<string, string>)
    requires ParseAct(ActOf(update)) == CopyCell
    ensures UpdateCheck(update, errs).ok <==> errs.keys == [] && ActFieldsOk(CopyCell, update)
  {
    var rq := [CellIdField, FormulaField];
    var formula := Lookup(update, Key(FormulaField));
    var o := FieldsCheck("Copy Cell", rq, [], update, errs);
    assert UpdateCheck(update, errs).ok == (o.ok && Matches(CellIdPattern, ToJsString(formula), true));
    assert o.ok <==> errs.keys == [] && FieldPasses(CellIdField, update) && FieldPasses(FormulaField, update) by {
      FieldsCheckOk("Copy Cell", rq, [], update, errs);
      assert rq[0] == CellIdField && rq[1] == FormulaField;
    }
    CellIdPasses(update);
    FormulaPasses(update);
    FormulaCellId(formula);
  }

  /** The `errors` object a caller hands to the validators. */
  class ErrorBag {
    var messages: Dict<string, string>

    constructor ()
      ensures messages.Valid() && messages.keys == []
    {
      messages := EmptyDict();
    }
  }

  method ValidateField(f: Field, params: Params, errors: ErrorBag) returns (ok: bool)
    modifies errors
    ensures Outcome(ok, errors.messages) == FieldCheck(f, params, old(errors.messages))
  {
    var value := Lookup(params, Key(f));
    if IsEmpty(value) {
      errors.messages := errors.messages.Put(Key(f), RequiredMessage(f));
      return false;
    }
    var err := FieldError(f, ToJsString(value));
    if err.Some? {
      errors.messages := errors.messages.Put(Key(f), err.value);
      return false;
    }
    return true;
  }

  method ValidateFields(act: string, required: seq<Field>, forbidden: seq<Field>, params: Params,
                        errors: ErrorBag) returns (ok: bool)
    modifies errors
    ensures Outcome(ok, errors.messages) == FieldsCheck(act, required, forbidden, params, old(errors.messages))
  {
    ghost var start := errors.messages;
    for i := 0 to |forbidden|
      invariant errors.messages == Forbid(act, forbidden[..i], params, start)
    {
      assert forbidden[..i + 1][..i] == forbidden[..i];
      var name := forbidden[i];
      if Truthy(Lookup(params, Key(name))) {
        errors.messages := errors.messages.Put(Key(name), ForbiddenMessage(name, act));
      }
    }
    assert forbidden[..|forbidden|] == forbidden;
    ghost var afterForbid := errors.messages;
    for i := 0 to |required|
      invariant errors.messages == Require(required[..i], params, afterForbid)
    {
      assert required[..i + 1][..i] == required[..i];
      var passed := ValidateField(required[i], params, errors);
    }
    assert required[..|required|] == required;
    ok := |errors.messages.keys| == 0;
  }

  method ValidateUpdate(update: Params, errors: ErrorBag) returns (ok: bool)
    modifies errors
    ensures Outcome(ok, errors.messages) == UpdateCheck(update, old(errors.messages))
  {
    var act := ActOf(update);
    match ParseAct(act) {
      case Missing =>
        errors.messages := errors.messages.Put(Key(ActField), "Action must be specified.");
        return false;
      case Clear =>
        ok := ValidateFields("Clear", [], [CellIdField, FormulaField], update, errors);
      case DeleteCell =>
        ok := ValidateFields("Delete Cell", [CellIdField], [FormulaField], update, errors);
      case CopyCell =>
        var isOk := ValidateFields("Copy Cell", [CellIdField, FormulaField], [], update, errors);
        if !isOk {
          return false;
        } else if FieldError(CellIdField, ToJsString(Lookup(update, Key(FormulaField)))).None? {
          return true;
        } else {
          errors.messages := errors.messages.Put(Key(FormulaField), "Copy requires formula to specify a cell ID");
          return false;
        }
      case UpdateCell =>
        ok := ValidateFields("Update Cell", [CellIdField, FormulaField], [], update, errors);
      case Unknown(name) =>
        errors.messages := errors.messages.Put(Key(ActField), "Invalid action \"" + name);
        return false;
    }
  }
}
