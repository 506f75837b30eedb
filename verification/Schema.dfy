/**
 Settings schemas and the validation of profile documents. Values carry the
 dynamic types that JSON and YAML decoding produce; reals stand for float64.
 */
module Schema {
  import opened Basics

  datatype Value =
    | Nil
    | Bool(b: bool)
    | Int(n: int)
    | Int64(n: int)
    | Float(r: real)
    | Str(s: string)
    | List(items: seq<Value>)
    | Strings(ss: seq<string>)
    | Object(fields: map<string, Value>)

  type Document = map<string, Value>

  datatype FieldType = StringField | TextField | PasswordField | BoolField | IntField | SelectField | ListField
                     | UnknownField(name: string)

  datatype Dependency = Dependency(field: string, value: Value)

  /** A missing default is Nil. */
  datatype Field = Field(key: string, fieldType: FieldType, labelText: string, default: Value, required: bool,
                         options: seq<string>, min: Option<int>, max: Option<int>, dependsOn: Option<Dependency>)

  datatype Complaint = Missing | NotString | NotBool | NotInt | TooSmall | TooLarge | NotAnOption | NotStrings

  datatype Problem = Problem(key: string, complaint: Complaint)

  // ---------------------------------------------------------------- values

  /** The integer a value encodes, in any of the encodings that reach the validator. */
  function AsInt(v: Value): Option<int> {
    match v
    case Int(n) => Some(n)
    case Int64(n) => Some(n)
    case Float(r) => if r.Floor as real == r then Some(r.Floor) else None
    case _ => None
  }

  predicate IsEmpty(v: Value) { v == Nil || v == Str("") }

  predicate SameKind(a: Value, b: Value) {
    match a
    case Nil => b.Nil?
    case Bool(_) => b.Bool?
    case Int(_) => b.Int?
    case Int64(_) => b.Int64?
    case Float(_) => b.Float?
    case Str(_) => b.Str?
    case List(_) => b.List?
    case Strings(_) => b.Strings?
    case Object(_) => b.Object?
  }

  /** Go's == panics on two values of one of these types. */
  predicate Uncomparable(v: Value) { v.List? || v.Strings? || v.Object? }

  datatype Comparison = Same | Different | Panics

  function LooseEqual(a: Value, b: Value): Comparison {
    if a == Nil || b == Nil then (if a == b then Same else Different)
    else if AsInt(a).Some? && AsInt(b).Some? then (if AsInt(a) == AsInt(b) then Same else Different)
    else if Uncomparable(a) && SameKind(a, b) then Panics
    else if a == b then Same
    else Different
  }

  function Lookup(doc: Document, key: string): Value {
    if key in doc then doc[key] else Nil
  }

  function DependencyHolds(f: Field, doc: Document): Comparison {
    match f.dependsOn
    case None => Same
    case Some(d) => LooseEqual(Lookup(doc, d.field), d.value)
  }

  /** What is wrong with a value that is present. */
  function CheckFieldValue(f: Field, v: Value): Option<Complaint> {
    match f.fieldType
    case StringField => if v.Str? then None else Some(NotString)
    case TextField => if v.Str? then None else Some(NotString)
    case PasswordField => if v.Str? then None else Some(NotString)
    case BoolField => if v.Bool? then None else Some(NotBool)
    case IntField =>
      if AsInt(v) == None then Some(NotInt)
      else if f.min.Some? && AsInt(v).value < f.min.value then Some(TooSmall)
      else if f.max.Some? && AsInt(v).value > f.max.value then Some(TooLarge)
      else None
    case SelectField => if !v.Str? then Some(NotString) else if v.s in f.options then None else Some(NotAnOption)
    case ListField =>
      if v.Strings? || (v.List? && forall i :: 0 <= i < |v.items| ==> v.items[i].Str?) then None else Some(NotStrings)
    case UnknownField(_) => None
  }

  // ------------------------------------------------- what the checks mean

  /** The value is the integer n, however it was decoded. */
  predicate Encodes(v: Value, n: int) { v == Int(n) || v == Int64(n) || v == Float(n as real) }

  ghost predicate IsInt(v: Value) { exists n :: Encodes(v, n) }

  /** The value suits the field: its type, its options, its bounds. */
  ghost predicate Suits(f: Field, v: Value) {
    match f.fieldType
    case StringField => exists s :: v == Str(s)
    case TextField => exists s :: v == Str(s)
    case PasswordField => exists s :: v == Str(s)
    case BoolField => v == Bool(true) || v == Bool(false)
    case IntField =>
      exists n :: Encodes(v, n) && (f.min.Some? ==> f.min.value <= n) && (f.max.Some? ==> n <= f.max.value)
    case SelectField => exists i :: 0 <= i < |f.options| && v == Str(f.options[i])
    case ListField =>
      v.Strings? || (v.List? && forall i :: 0 <= i < |v.items| ==> exists s :: v.items[i] == Str(s))
    case UnknownField(_) => true
  }

  /** What a complaint says about the value. Of two broken bounds the lower is named. */
  ghost predicate Justified(c: Complaint, f: Field, v: Value) {
    match c
    case NotString => !v.Str? && f.fieldType in {StringField, TextField, PasswordField, SelectField}
    case NotBool => !v.Bool? && f.fieldType == BoolField
    case NotInt => !IsInt(v) && f.fieldType == IntField
    case TooSmall => f.fieldType == IntField && f.min.Some? && exists n :: Encodes(v, n) && n < f.min.value
    case TooLarge =>
      f.fieldType == IntField && f.max.Some?
      && exists n :: Encodes(v, n) && n > f.max.value && (f.min.Some? ==> f.min.value <= n)
    case NotAnOption => f.fieldType == SelectField && v.Str? && v.s !in f.options
    case NotStrings => f.fieldType == ListField && !Suits(f, v)
    case Missing => false
  }

  lemma AsIntIff(v: Value, n: int)
    ensures AsInt(v) == Some(n) <==> Encodes(v, n)
  {}

  /** A value passes exactly when it suits the field, and exactly what is true is said of any other. */
  lemma CheckIff(f: Field, v: Value)
    ensures CheckFieldValue(f, v) == None <==> Suits(f, v)
    ensures forall c :: CheckFieldValue(f, v) == Some(c) <==> Justified(c, f, v)
  {
    if AsInt(v).Some? { AsIntIff(v, AsInt(v).value); }
    if n :| Encodes(v, n) { AsIntIff(v, n); }
    assert v.Str? ==> exists s :: v == Str(s);
    if v.List? {
      forall i | 0 <= i < |v.items| ensures v.items[i].Str? <==> exists s :: v.items[i] == Str(s) {
        assert v.items[i].Str? ==> v.items[i] == Str(v.items[i].s);
      }
    }
    if f.fieldType.SelectField? && v.Str? && v.s in f.options {
      var i :| 0 <= i < |f.options| && f.options[i] == v.s;
      assert v == Str(f.options[i]);
    }
  }

  /** Two values are the same for a dependency: both nil, the same integer, or equal and comparable. */
  ghost predicate Alike(a: Value, b: Value) {
    || (a == Nil && b == Nil)
    || (exists n :: Encodes(a, n) && Encodes(b, n))
    || (a == b && !a.List? && !a.Strings? && !a.Object?)
  }

  /** Go cannot compare the two. */
  predicate Clashing(a: Value, b: Value) {
    (a.List? && b.List?) || (a.Strings? && b.Strings?) || (a.Object? && b.Object?)
  }

  lemma LooseEqualIff(a: Value, b: Value)
    ensures LooseEqual(a, b) == Same <==> Alike(a, b)
    ensures LooseEqual(a, b) == Panics <==> Clashing(a, b)
  {
    if AsInt(a).Some? { AsIntIff(a, AsInt(a).value); }
    if AsInt(b).Some? { AsIntIff(b, AsInt(b).value); }
    if n :| Encodes(a, n) && Encodes(b, n) {
      AsIntIff(a, n);
      AsIntIff(b, n);
    }
  }

  // ---------------------------------------------------------------- schemas

  predicate Letter(c: char) { 'a' <= c <= 'z' || 'A' <= c <= 'Z' }

  predicate KeyOk(key: string) {
    key != "" && Letter(key[0]) && forall i :: 0 < i < |key| ==> Letter(key[i]) || '0' <= key[i] <= '9'
  }

  /** A field that can stand in a schema by itself. */
  ghost predicate FieldOk(f: Field) {
    && KeyOk(f.key)
    && !f.fieldType.UnknownField?
    && (f.fieldType.SelectField? ==> f.options != [])
    && f.labelText != ""
    && (f.min.Some? && f.max.Some? ==> f.min.value <= f.max.value)
    && (f.default != Nil ==> Suits(f, f.default))
  }

  predicate Declares(fields: seq<Field>, key: string) {
    exists i :: 0 <= i < |fields| && fields[i].key == key
  }

  ghost predicate WellFormed(fields: seq<Field>) {
    && (forall i :: 0 <= i < |fields| ==> FieldOk(fields[i]))
    && (forall i, j :: 0 <= i < j < |fields| ==> fields[i].key != fields[j].key)
    && (forall i :: 0 <= i < |fields| && fields[i].dependsOn.Some? ==>
          Declares(fields, fields[i].dependsOn.value.field))
  }

  datatype Fault =
    | BadKey(position: nat)
    | DuplicateKey(key: string)
    | NoOptions(key: string)
    | UnknownType(key: string)
    | NoLabel(key: string)
    | MinAboveMax(key: string)
    | BadDefault(key: string, complaint: Complaint)
    | UnknownDependency(key: string, field: string)

  /** What disqualifies field i, the earlier fields being there. */
  ghost predicate HasFault(fields: seq<Field>, i: nat, x: Fault)
    requires i < |fields|
  {
    var f := fields[i];
    match x
    case BadKey(position) => position == i && !KeyOk(f.key)
    case DuplicateKey(key) => key == f.key && Declares(fields[..i], f.key)
    case NoOptions(key) => key == f.key && f.fieldType.SelectField? && f.options == []
    case UnknownType(key) => key == f.key && f.fieldType.UnknownField?
    case NoLabel(key) => key == f.key && f.labelText == ""
    case MinAboveMax(key) => key == f.key && f.min.Some? && f.max.Some? && f.min.value > f.max.value
    case BadDefault(key, complaint) =>
      key == f.key && f.default != Nil && Justified(complaint, f, f.default)
    case UnknownDependency(key, field) =>
      key == f.key && f.dependsOn.Some? && f.dependsOn.value.field == field && !Declares(fields, field)
  }

  /** The order in which the faults of one field are looked for; dependencies come last, in a pass of their own. */
  function Precedence(x: Fault): nat {
    match x
    case BadKey(_) => 0
    case DuplicateKey(_) => 1
    case NoOptions(_) => 2
    case UnknownType(_) => 2
    case NoLabel(_) => 3
    case MinAboveMax(_) => 4
    case BadDefault(_, _) => 5
    case UnknownDependency(_, _) => 6
  }

  /** Fault x of field i comes before fault y of field k. */
  predicate Earlier(i: nat, x: Fault, k: nat, y: Fault) {
    if x.UnknownDependency? == y.UnknownDependency? then i < k || (i == k && Precedence(x) < Precedence(y))
    else y.UnknownDependency?
  }

  /** Field i has fault x, and no field has an earlier one. */
  ghost predicate IsFirstFault(fields: seq<Field>, i: nat, x: Fault) {
    && i < |fields| && HasFault(fields, i, x)
    && forall k: nat, y :: k < |fields| && HasFault(fields, k, y) ==> !Earlier(k, y, i, x)
  }

  /** Of all faults of a schema one is the first. */
  lemma FirstFaultIsUnique(fields: seq<Field>, i: nat, x: Fault, j: nat, y: Fault)
    requires IsFirstFault(fields, i, x) && IsFirstFault(fields, j, y)
    ensures i == j && x == y
  {
    assert !Earlier(i, x, j, y) && !Earlier(j, y, i, x);
  }

  /** No field of the prefix has a fault of its own. */
  ghost predicate SoundUpTo(fields: seq<Field>, n: nat)
    requires n <= |fields|
  {
    forall k: nat, y :: k < n && HasFault(fields, k, y) ==> y.UnknownDependency?
  }

  /** Field i has no fault of its own that is looked for before the p-th check. */
  ghost predicate PassesUpTo(fields: seq<Field>, i: nat, p: nat)
    requires i < |fields|
  {
    forall y :: HasFault(fields, i, y) ==> Precedence(y) >= p
  }

  lemma FirstOwnFault(fields: seq<Field>, i: nat, x: Fault)
    requires i < |fields| && SoundUpTo(fields, i) && HasFault(fields, i, x) && !x.UnknownDependency?
    requires PassesUpTo(fields, i, Precedence(x))
    ensures IsFirstFault(fields, i, x)
  {}

  lemma NextFieldSound(fields: seq<Field>, i: nat)
    requires i < |fields| && SoundUpTo(fields, i) && PassesUpTo(fields, i, 6)
    ensures SoundUpTo(fields, i + 1)
  {}

  lemma FieldFaultless(fields: seq<Field>, i: nat)
    requires i < |fields| && SoundUpTo(fields, |fields|)
    requires fields[i].dependsOn.Some? ==> Declares(fields, fields[i].dependsOn.value.field)
    ensures forall y :: !HasFault(fields, i, y)
  {}

  lemma FirstDependencyFault(fields: seq<Field>, i: nat, x: Fault)
    requires SoundUpTo(fields, |fields|) && i < |fields| && HasFault(fields, i, x) && x.UnknownDependency?
    requires forall k: nat, y :: k < i ==> !HasFault(fields, k, y)
    ensures IsFirstFault(fields, i, x)
  {}

  /** The schemas in which no fault can be found are the well-formed ones. */
  lemma FaultlessIff(fields: seq<Field>)
    ensures WellFormed(fields) <==> forall i: nat, x :: i < |fields| ==> !HasFault(fields, i, x)
  {
    if WellFormed(fields) {
      forall i: nat, x | i < |fields| ensures !HasFault(fields, i, x) {
        assert FieldOk(fields[i]);
      }
    } else if i :| 0 <= i < |fields| && !FieldOk(fields[i]) {
      FieldHasFault(fields, i);
    } else if i, j :| 0 <= i < j < |fields| && fields[i].key == fields[j].key {
      assert fields[..j][i].key == fields[j].key;
      assert HasFault(fields, j, DuplicateKey(fields[j].key));
    } else {
      var i :| 0 <= i < |fields| && fields[i].dependsOn.Some? && !Declares(fields, fields[i].dependsOn.value.field);
      assert HasFault(fields, i, UnknownDependency(fields[i].key, fields[i].dependsOn.value.field));
    }
  }

  lemma FieldHasFault(fields: seq<Field>, i: nat)
    requires i < |fields| && !FieldOk(fields[i])
    ensures exists x :: HasFault(fields, i, x)
  {
    var f := fields[i];
    CheckIff(f, f.default);
    if f.default != Nil && CheckFieldValue(f, f.default) != None {
      assert HasFault(fields, i, BadDefault(f.key, CheckFieldValue(f, f.default).value));
    }
    assert HasFault(fields, i, BadKey(i)) || HasFault(fields, i, UnknownType(f.key))
      || HasFault(fields, i, NoOptions(f.key)) || HasFault(fields, i, NoLabel(f.key))
      || HasFault(fields, i, MinAboveMax(f.key)) || (f.default != Nil && CheckFieldValue(f, f.default) != None);
  }

  /** Accepts exactly the well-formed schemas; of all faults of any other, it reports the first. */
  method ValidateSchema(fields: seq<Field>) returns (fault: Option<Fault>)
    ensures fault == None <==> WellFormed(fields)
    ensures fault.Some? ==> exists i: nat :: IsFirstFault(fields, i, fault.value)
  {
    assert SoundUpTo(fields, 0);
    FaultlessIff(fields);
    hide IsFirstFault, SoundUpTo, KeyOk, CheckFieldValue, Justified, Suits, WellFormed;
    var keys: set<string> := {};
    for i := 0 to |fields|
      invariant forall key :: key in keys <==> Declares(fields[..i], key)
      invariant SoundUpTo(fields, i)
    {
      var f := fields[i];
      assert fields[..i + 1] == fields[..i] + [f];
      if !KeyOk(f.key) {
        FirstOwnFault(fields, i, BadKey(i));
        return Some(BadKey(i));
      }
      if f.key in keys {
        FirstOwnFault(fields, i, DuplicateKey(f.key));
        return Some(DuplicateKey(f.key));
      }
      keys := keys + {f.key};
      match f.fieldType {
        case SelectField =>
          if f.options == [] {
            FirstOwnFault(fields, i, NoOptions(f.key));
            return Some(NoOptions(f.key));
          }
        case UnknownField(_) =>
          FirstOwnFault(fields, i, UnknownType(f.key));
          return Some(UnknownType(f.key));
        case _ =>
      }
      if f.labelText == "" {
        FirstOwnFault(fields, i, NoLabel(f.key));
        return Some(NoLabel(f.key));
      }
      if f.min.Some? && f.max.Some? && f.min.value > f.max.value {
        FirstOwnFault(fields, i, MinAboveMax(f.key));
        return Some(MinAboveMax(f.key));
      }
      if f.default != Nil {
        var complaint := CheckFieldValue(f, f.default);
        CheckIff(f, f.default);
        if complaint.Some? {
          FirstOwnFault(fields, i, BadDefault(f.key, complaint.value));
          return Some(BadDefault(f.key, complaint.value));
        }
      }
      NextFieldSound(fields, i);
    }
    assert fields[..|fields|] == fields;
    for i := 0 to |fields|
      invariant forall k: nat, y :: k < i ==> !HasFault(fields, k, y)
    {
      var d := fields[i].dependsOn;
      if d.Some? && d.value.field !in keys {
        FirstDependencyFault(fields, i, UnknownDependency(fields[i].key, d.value.field));
        return Some(UnknownDependency(fields[i].key, d.value.field));
      }
      FieldFaultless(fields, i);
    }
    return None;
  }

  // -------------------------------------------------------------- documents

  /** The finding on one field: nothing, a complaint, or a panic of the comparison. */
  datatype Finding = Fine | Bad(complaint: Complaint) | Crash

  function Inspect(f: Field, doc: Document): Finding {
    var v := Lookup(doc, f.key);
    if IsEmpty(v) then
      if !f.required then Fine
      else match DependencyHolds(f, doc)
           case Same => Bad(Missing)
           case Different => Fine
           case Panics => Crash
    else match CheckFieldValue(f, v)
         case None => Fine
         case Some(c) => Bad(c)
  }

  function Problems(fields: seq<Field>, doc: Document): seq<Problem> {
    if fields == [] then []
    else
      var f := fields[|fields| - 1];
      var before := Problems(fields[..|fields| - 1], doc);
      if Inspect(f, doc).Bad? then before + [Problem(f.key, Inspect(f, doc).complaint)] else before
  }

  ghost predicate Crashes(fields: seq<Field>, doc: Document) {
    exists i :: 0 <= i < |fields| && Inspect(fields[i], doc) == Crash
  }

  datatype Outcome = Accepted | Rejected(problems: seq<Problem>) | Panicked

  ghost function Expected(fields: seq<Field>, doc: Document): Outcome {
    if Crashes(fields, doc) then Panicked
    else if Problems(fields, doc) == [] then Accepted
    else Rejected(Problems(fields, doc))
  }

  method ValidateConfig(fields: seq<Field>, doc: Document) returns (r: Outcome)
    ensures r == Expected(fields, doc)
    ensures r == Accepted <==> Acceptable(fields, doc)
    ensures r == Panicked <==> AnyStuck(fields, doc)
    ensures r.Rejected? ==> IsReport(r.problems, fields, doc)
  {
    AcceptedIff(fields, doc);
    ProblemsAreReport(fields, doc);
    hide Acceptable, AnyStuck, IsReport, CheckFieldValue, LooseEqual;
    var problems := [];
    for i := 0 to |fields|
      invariant forall k :: 0 <= k < i ==> Inspect(fields[k], doc) != Crash
      invariant problems == Problems(fields[..i], doc)
    {
      var f := fields[i];
      assert fields[..i + 1][..i] == fields[..i];
      var value := Lookup(doc, f.key);
      if f.key !in doc || IsEmpty(value) {
        if f.required {
          match DependencyHolds(f, doc)
          case Same => problems := problems + [Problem(f.key, Missing)];
          case Different =>
          case Panics => return Panicked;
        }
        continue;
      }
      var complaint := CheckFieldValue(f, value);
      if complaint != None {
        problems := problems + [Problem(f.key, complaint.value)];
      }
    }
    assert fields[..|fields|] == fields;
    return if problems == [] then Accepted else Rejected(problems);
  }

  // ------------------------------------------------------------- properties

  /** The document has something to say about the key. */
  predicate Present(doc: Document, key: string) {
    key in doc && doc[key] != Nil && doc[key] != Str("")
  }

  /** The field has no dependency, or the document has the value it hangs on. */
  ghost predicate IsActive(f: Field, doc: Document) {
    f.dependsOn == None
    || Alike(if f.dependsOn.value.field in doc then doc[f.dependsOn.value.field] else Nil, f.dependsOn.value.value)
  }

  /** Required and absent, and whether the field is active cannot be told. */
  predicate Stuck(f: Field, doc: Document) {
    && f.required && !Present(doc, f.key) && f.dependsOn.Some? && f.dependsOn.value.field in doc
    && Clashing(doc[f.dependsOn.value.field], f.dependsOn.value.value)
  }

  ghost predicate AnyStuck(fields: seq<Field>, doc: Document) {
    exists i :: 0 <= i < |fields| && Stuck(fields[i], doc)
  }

  /** The list has exactly the problems the fields give cause for. */
  ghost predicate IsReport(problems: seq<Problem>, fields: seq<Field>, doc: Document) {
    forall p :: p in problems <==> exists i :: 0 <= i < |fields| && Reports(fields[i], doc, p)
  }

  /** Every value that is there suits its field, and nothing required and active is missing. */
  ghost predicate Acceptable(fields: seq<Field>, doc: Document) {
    forall i :: 0 <= i < |fields| ==> IsRight(fields[i], doc)
  }

  ghost predicate IsRight(f: Field, doc: Document) {
    if Present(doc, f.key) then Suits(f, doc[f.key])
    else f.required ==> !IsActive(f, doc) && !Stuck(f, doc)
  }

  /** The field gives cause for the problem. */
  ghost predicate Reports(f: Field, doc: Document, p: Problem) {
    && p.key == f.key
    && if Present(doc, f.key) then Justified(p.complaint, f, doc[f.key])
       else p.complaint == Missing && f.required && IsActive(f, doc)
  }

  lemma InspectIff(f: Field, doc: Document)
    ensures Inspect(f, doc) == Crash <==> Stuck(f, doc)
    ensures forall c :: Inspect(f, doc) == Bad(c) <==> Reports(f, doc, Problem(f.key, c))
    ensures Inspect(f, doc) == Fine <==> IsRight(f, doc)
  {
    hide Suits, Justified, Alike, Clashing, CheckFieldValue, LooseEqual;
    var v := Lookup(doc, f.key);
    CheckIff(f, v);
    if f.dependsOn.Some? {
      LooseEqualIff(Lookup(doc, f.dependsOn.value.field), f.dependsOn.value.value);
      NilClashesWithNothing(f.dependsOn.value.value);
    }
  }

  lemma NilClashesWithNothing(v: Value)
    ensures !Clashing(Nil, v)
  {}

  /**
   What validation accepts, in terms of the values alone: a value that is there
   suits its field, and every required field whose dependency holds is there.
   */
  lemma AcceptedIff(fields: seq<Field>, doc: Document)
    ensures Expected(fields, doc) == Accepted <==> Acceptable(fields, doc)
    ensures Expected(fields, doc) == Panicked <==> AnyStuck(fields, doc)
  {
    hide IsRight, Stuck, Inspect, Reports, Problems;
    forall i | 0 <= i < |fields|
      ensures Inspect(fields[i], doc) == Crash <==> Stuck(fields[i], doc)
      ensures Inspect(fields[i], doc) == Fine <==> IsRight(fields[i], doc)
    {
      InspectIff(fields[i], doc);
    }
    NoProblemsIff(fields, doc);
  }

  lemma NoProblemsIff(fields: seq<Field>, doc: Document)
    ensures Problems(fields, doc) == [] <==> forall i :: 0 <= i < |fields| ==> !Inspect(fields[i], doc).Bad?
  {
    if Problems(fields, doc) != [] {
      var p := Problems(fields, doc)[0];
      ReportedByInspection(fields, doc, p);
    }
    if i :| 0 <= i < |fields| && Inspect(fields[i], doc).Bad? {
      ReportedByInspection(fields, doc, Problem(fields[i].key, Inspect(fields[i], doc).complaint));
    }
  }

  /** A problem is reported exactly when some field gives cause for it. */
  lemma ReportedIff(fields: seq<Field>, doc: Document, p: Problem)
    ensures p in Problems(fields, doc) <==> exists i :: 0 <= i < |fields| && Reports(fields[i], doc, p)
  {
    ReportedByInspection(fields, doc, p);
    forall i | 0 <= i < |fields|
      ensures fields[i].key == p.key && Inspect(fields[i], doc) == Bad(p.complaint) <==> Reports(fields[i], doc, p)
    {
      InspectIff(fields[i], doc);
      assert p.key == fields[i].key ==> p == Problem(fields[i].key, p.complaint);
    }
  }

  lemma ProblemsAreReport(fields: seq<Field>, doc: Document)
    ensures IsReport(Problems(fields, doc), fields, doc)
  {
    forall p ensures p in Problems(fields, doc) <==> exists i :: 0 <= i < |fields| && Reports(fields[i], doc, p) {
      ReportedIff(fields, doc, p);
    }
  }

  /** The problems are listed in the order of the fields, one for each field that has any. */
  lemma {:induction false} ProblemsInOrder(fields: seq<Field>, doc: Document) returns (at: seq<nat>)
    ensures |at| == |Problems(fields, doc)|
    ensures forall k :: 0 <= k < |at| ==> at[k] < |fields| && Reports(fields[at[k]], doc, Problems(fields, doc)[k])
    ensures forall j, k :: 0 <= j < k < |at| ==> at[j] < at[k]
  {
    at := [];
    if fields != [] {
      var n := |fields| - 1;
      at := ProblemsInOrder(fields[..n], doc);
      InspectIff(fields[n], doc);
      if Inspect(fields[n], doc).Bad? { at := at + [n]; }
    }
  }

  lemma {:induction false} ReportedByInspection(fields: seq<Field>, doc: Document, p: Problem)
    ensures p in Problems(fields, doc) <==>
      exists i :: 0 <= i < |fields| && fields[i].key == p.key && Inspect(fields[i], doc) == Bad(p.complaint)
  {
    if fields != [] {
      var init := fields[..|fields| - 1];
      ReportedByInspection(init, doc, p);
      if i :| 0 <= i < |init| && init[i].key == p.key && Inspect(init[i], doc) == Bad(p.complaint) {
        assert fields[i] == init[i];
      }
      if i :| 0 <= i < |fields| && fields[i].key == p.key && Inspect(fields[i], doc) == Bad(p.complaint) && i < |init| {
        assert init[i] == fields[i];
      }
    }
  }

  /** Two field lists inspected alike, position by position, give the same outcome. */
  lemma {:induction false} SameFindings(fs: seq<Field>, gs: seq<Field>, d: Document, e: Document)
    requires |fs| == |gs|
    requires forall i :: 0 <= i < |fs| ==> fs[i].key == gs[i].key && Inspect(fs[i], d) == Inspect(gs[i], e)
    ensures Problems(fs, d) == Problems(gs, e) && Expected(fs, d) == Expected(gs, e)
  {
    if fs != [] {
      SameFindings(fs[..|fs| - 1], gs[..|gs| - 1], d, e);
    }
    if Crashes(fs, d) {
      var i :| 0 <= i < |fs| && Inspect(fs[i], d) == Crash;
      assert Inspect(gs[i], e) == Crash;
    }
    if Crashes(gs, e) {
      var i :| 0 <= i < |gs| && Inspect(gs[i], e) == Crash;
      assert Inspect(fs[i], d) == Crash;
    }
  }

  /** Keys an accepted schema does not declare have no influence. */
  lemma OnlyDeclaredKeysMatter(fields: seq<Field>, d: Document, e: Document)
    requires WellFormed(fields)
    requires forall key :: Declares(fields, key) ==> Lookup(d, key) == Lookup(e, key)
    ensures Expected(fields, d) == Expected(fields, e)
  {
    forall i | 0 <= i < |fields| ensures Inspect(fields[i], d) == Inspect(fields[i], e) {
      assert Declares(fields, fields[i].key);
    }
    SameFindings(fields, fields, d, e);
  }

  /** The same value up to the encoding of the integers in it. */
  predicate Recoded(v: Value, w: Value) {
    || v == w
    || (AsInt(v).Some? && AsInt(v) == AsInt(w))
    || (v.List? && w.List? && |v.items| == |w.items|
        && forall i :: 0 <= i < |v.items| ==> Recoded(v.items[i], w.items[i]))
    || (v.Object? && w.Object? && v.fields.Keys == w.fields.Keys
        && forall k :: k in v.fields ==> Recoded(v.fields[k], w.fields[k]))
  }

  /** A schema whose dependency values have been recoded. */
  ghost predicate RecodedSchema(fs: seq<Field>, gs: seq<Field>) {
    && |fs| == |gs|
    && forall i :: 0 <= i < |fs| ==> RecodedField(fs[i], gs[i])
  }

  ghost predicate RecodedField(f: Field, g: Field) {
    && f.(dependsOn := None) == g.(dependsOn := None)
    && (f.dependsOn.Some? <==> g.dependsOn.Some?)
    && (f.dependsOn.Some? ==>
          && f.dependsOn.value.field == g.dependsOn.value.field
          && Recoded(f.dependsOn.value.value, g.dependsOn.value.value))
  }

  /** What recoding leaves alone. */
  predicate Twins(v: Value, w: Value) {
    && AsInt(v) == AsInt(w)
    && (Uncomparable(v) <==> Uncomparable(w))
    && (if Uncomparable(v) then SameKind(v, w) else AsInt(v) == None ==> v == w)
  }

  lemma RecodedAreTwins(v: Value, w: Value)
    requires Recoded(v, w)
    ensures Twins(v, w)
  {}

  lemma TwinsComparedAlike(a: Value, b: Value, x: Value, y: Value)
    requires Twins(a, x) && Twins(b, y)
    ensures LooseEqual(a, b) == LooseEqual(x, y)
  {}

  lemma RecodedIsCheckedAlike(f: Field, g: Field, v: Value, w: Value)
    requires RecodedField(f, g) && Recoded(v, w)
    ensures CheckFieldValue(f, v) == CheckFieldValue(g, w) && IsEmpty(v) == IsEmpty(w)
  {
    assert f.fieldType == g.(dependsOn := None).fieldType && f.min == g.(dependsOn := None).min
      && f.max == g.(dependsOn := None).max && f.options == g.(dependsOn := None).options;
    if v.List? && w.List? && |v.items| == |w.items| {
      forall i | 0 <= i < |v.items| && Recoded(v.items[i], w.items[i]) ensures v.items[i].Str? <==> w.items[i].Str? {}
    }
  }

  /** Integers may arrive as int, int64 or float64, in the document and in the schema: the outcome is the same. */
  lemma EncodingDoesNotMatter(fs: seq<Field>, gs: seq<Field>, d: Document, e: Document)
    requires RecodedSchema(fs, gs) && forall key :: Recoded(Lookup(d, key), Lookup(e, key))
    ensures Expected(fs, d) == Expected(gs, e)
  {
    forall i | 0 <= i < |fs| ensures fs[i].key == gs[i].key && Inspect(fs[i], d) == Inspect(gs[i], e) {
      var f, g := fs[i], gs[i];
      assert RecodedField(f, g);
      assert f.key == g.(dependsOn := None).key && f.required == g.(dependsOn := None).required;
      RecodedIsCheckedAlike(f, g, Lookup(d, f.key), Lookup(e, f.key));
      if f.dependsOn.Some? {
        var field := f.dependsOn.value.field;
        RecodedAreTwins(Lookup(d, field), Lookup(e, field));
        RecodedAreTwins(f.dependsOn.value.value, g.dependsOn.value.value);
        TwinsComparedAlike(Lookup(d, field), f.dependsOn.value.value, Lookup(e, field), g.dependsOn.value.value);
      }
    }
    SameFindings(fs, gs, d, e);
  }

  /** Validation panics exactly when a required, empty field hangs on a list or object compared with its like. */
  lemma PanicsIff(fields: seq<Field>, doc: Document)
    ensures Expected(fields, doc) == Panicked <==>
      exists i :: 0 <= i < |fields| && fields[i].required && IsEmpty(Lookup(doc, fields[i].key))
        && fields[i].dependsOn.Some?
        && var d := fields[i].dependsOn.value;
           Uncomparable(d.value) && SameKind(Lookup(doc, d.field), d.value)
  {}

  const A_FIELD: Field := Field("a", ListField, "A", Nil, false, [], None, None, None)
  const B_FIELD: Field := Field("b", StringField, "B", Nil, true, [], None, None,
                                Some(Dependency("a", List([Str("x")]))))

  /** Such a schema is accepted, and an ordinary document makes validation panic. */
  lemma PanicExample()
    ensures WellFormed([A_FIELD, B_FIELD])
    ensures Expected([A_FIELD, B_FIELD], map["a" := List([Str("x")])]) == Panicked
  {
    var fields := [A_FIELD, B_FIELD];
    var doc: Document := map["a" := List([Str("x")])];
    assert fields[0].key == "a" && Declares(fields, "a");
    assert Inspect(fields[1], doc) == Crash;
  }

  /** No schema without list- or object-valued dependencies makes validation panic. */
  ghost predicate ComparableDependencies(fields: seq<Field>) {
    forall i :: 0 <= i < |fields| && fields[i].dependsOn.Some? ==> !Uncomparable(fields[i].dependsOn.value.value)
  }

  lemma NeverPanics(fields: seq<Field>, doc: Document)
    requires ComparableDependencies(fields)
    ensures Expected(fields, doc) != Panicked
  {}

  /** The document a form shows before anything is typed. */
  ghost predicate IsDefaults(fields: seq<Field>, doc: Document) {
    forall i :: 0 <= i < |fields| ==> Lookup(doc, fields[i].key) == fields[i].default
  }

  lemma {:induction false} DefaultsExist(fields: seq<Field>) returns (doc: Document)
    requires WellFormed(fields)
    ensures IsDefaults(fields, doc)
  {
    doc := map i | 0 <= i < |fields| :: fields[i].key := fields[i].default;
  }

  /** Required and active, but empty by default. */
  predicate LacksDefault(f: Field, doc: Document) {
    f.required && IsEmpty(f.default) && DependencyHolds(f, doc) == Same
  }

  /** The defaults of an accepted schema only ever lack required fields. */
  lemma DefaultsOnlyMiss(fields: seq<Field>, doc: Document, p: Problem)
    requires WellFormed(fields) && IsDefaults(fields, doc)
    ensures p in Problems(fields, doc) <==>
      && p.complaint == Missing
      && exists i :: 0 <= i < |fields| && fields[i].key == p.key && LacksDefault(fields[i], doc)
  {
    ReportedByInspection(fields, doc, p);
    forall i | 0 <= i < |fields|
      ensures Inspect(fields[i], doc).Bad? <==>
        LacksDefault(fields[i], doc)
      ensures Inspect(fields[i], doc).Bad? ==> Inspect(fields[i], doc) == Bad(Missing)
    {
      assert FieldOk(fields[i]);
    }
  }
}
