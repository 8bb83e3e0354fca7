/**
 * DynamicCustomerFiltering (ExpressionTrees/Program.cs): builds the body of
 * `c => c.<property> <op> value` or `c => c.<property>.<Method>(value)` from a
 * property name, a boxed value and an operator object, compiles it and
 * filters the customers with it.
 *
 * The expression tree is modelled by the datatype `Body`, its compilation by
 * the interpreter `Eval`, and every exception the construction can throw by
 * an `Error` value.
 */
module ExpressionTrees {
  import opened Wrappers
  import opened Records
  import Text
  import Linq

  /** The run-time types a property or a boxed value can have. */
  datatype ValueType = IntType | LongType | DecimalType | StringType | BoolType | DateTimeType

  /** A boxed C# value, embedded unconverted by Expression.Constant. */
  datatype Value =
    | IntValue(i: int)
    | LongValue(l: int)
    | DecimalValue(d: real)
    | StringValue(s: string)
    | BoolValue(b: bool)
    | DateTimeValue(date: Date)

  function TypeOf(v: Value): ValueType {
    match v
    case IntValue(_) => IntType
    case LongValue(_) => LongType
    case DecimalValue(_) => DecimalType
    case StringValue(_) => StringType
    case BoolValue(_) => BoolType
    case DateTimeValue(_) => DateTimeType
  }

  /** The public properties of Customer. */
  datatype Property = Id | Name | Telephone | Age | SpendAverage | CategoryId | IsActive | JoinDate

  function DeclaredName(p: Property): string {
    match p
    case Id => "id"
    case Name => "name"
    case Telephone => "telephone"
    case Age => "age"
    case SpendAverage => "spendAverage"
    case CategoryId => "categoryId"
    case IsActive => "isActive"
    case JoinDate => "joinDate"
  }

  function DeclaredType(p: Property): ValueType {
    match p
    case Id => IntType
    case Name => StringType
    case Telephone => LongType
    case Age => IntType
    case SpendAverage => DecimalType
    case CategoryId => IntType
    case IsActive => BoolType
    case JoinDate => DateTimeType
  }

  /** Reads property `p` of customer `c`, boxed with its declared type. */
  function Get(c: Customer, p: Property): (v: Value)
    ensures TypeOf(v) == DeclaredType(p)
  {
    match p
    case Id => IntValue(c.id)
    case Name => StringValue(c.name)
    case Telephone => LongValue(c.telephone)
    case Age => IntValue(c.age)
    case SpendAverage => DecimalValue(c.spendAverage)
    case CategoryId => IntValue(c.categoryId)
    case IsActive => BoolValue(c.isActive)
    case JoinDate => DateTimeValue(c.joinDate)
  }

  /** The declared name in lower case, which is what a case-insensitive lookup compares. */
  function LowerName(p: Property): string {
    match p
    case Id => "id"
    case Name => "name"
    case Telephone => "telephone"
    case Age => "age"
    case SpendAverage => "spendaverage"
    case CategoryId => "categoryid"
    case IsActive => "isactive"
    case JoinDate => "joindate"
  }

  lemma LowerNameIsLowered(p: Property)
    ensures Text.ToLowerInvariant(DeclaredName(p)) == LowerName(p)
  {
    var s := DeclaredName(p);
    assert forall i :: 0 <= i < |s| ==> Text.ToLowerInvariant(s)[i] == LowerName(p)[i];
  }

  /**
   * Expression.Property(param, name): the Customer property whose name
   * equals `name` when case is ignored.
   */
  function ResolveProperty(name: string): (r: Option<Property>)
    ensures forall p :: r == Some(p) <==> Text.EqualsIgnoreCase(DeclaredName(p), name)
  {
    var lower := Text.ToLowerInvariant(name);
    var r :=
      if lower == "id" then Some(Id)
      else if lower == "name" then Some(Name)
      else if lower == "telephone" then Some(Telephone)
      else if lower == "age" then Some(Age)
      else if lower == "spendaverage" then Some(SpendAverage)
      else if lower == "categoryid" then Some(CategoryId)
      else if lower == "isactive" then Some(IsActive)
      else if lower == "joindate" then Some(JoinDate)
      else None;
    assert forall p :: r == Some(p) <==> LowerName(p) == lower;
    assert forall p :: Text.EqualsIgnoreCase(DeclaredName(p), name) <==> LowerName(p) == lower by {
      forall p ensures Text.EqualsIgnoreCase(DeclaredName(p), name) <==> LowerName(p) == lower {
        LowerNameIsLowered(p);
        Text.LowerEqualsIffIgnoreCase(DeclaredName(p), name);
      }
    }
    r
  }

  /** The six ExpressionType comparison kinds. */
  datatype Comparison = Equal | NotEqual | LessThan | LessThanOrEqual | GreaterThan | GreaterThanOrEqual

  /**
   * Whether Expression.MakeBinary finds an operator for these operand types:
   * the operands must have the same type (no implicit conversion is inserted);
   * int, long, decimal and DateTime define all six comparisons, string and
   * bool only == and !=.
   */
  predicate OperatorDefined(k: Comparison, left: ValueType, right: ValueType) {
    left == right && (k == Equal || k == NotEqual || (left != StringType && left != BoolType))
  }

  /** The strict order `<` of two values of the same ordered type. */
  predicate Less(a: Value, b: Value) {
    match (a, b)
    case (IntValue(x), IntValue(y)) => x < y
    case (LongValue(x), LongValue(y)) => x < y
    case (DecimalValue(x), DecimalValue(y)) => x < y
    case (DateTimeValue(x), DateTimeValue(y)) => Before(x, y)
    case _ => false
  }

  /** The value of the binary node `left <k> right`. */
  predicate Holds(k: Comparison, left: Value, right: Value) {
    match k
    case Equal => left == right
    case NotEqual => left != right
    case LessThan => Less(left, right)
    case LessThanOrEqual => Less(left, right) || left == right
    case GreaterThan => Less(right, left)
    case GreaterThanOrEqual => Less(right, left) || left == right
  }

  /** The instance methods of string that take one string and return bool. */
  datatype StringMethod = Contains | StartsWith | EndsWith | Equals

  /** typeof(string).GetMethod(name, new[] { typeof(string) }): exact, case-sensitive name match. */
  function LookupStringMethod(name: string): Option<StringMethod> {
    if name == "Contains" then Some(Contains)
    else if name == "StartsWith" then Some(StartsWith)
    else if name == "EndsWith" then Some(EndsWith)
    else if name == "Equals" then Some(Equals)
    else None
  }

  /** The result of `receiver.<m>(argument)`, with ordinal comparison. */
  predicate Invoke(m: StringMethod, receiver: string, argument: string) {
    match m
    case Contains => Text.Contains(receiver, argument)
    case StartsWith => Text.StartsWith(receiver, argument)
    case EndsWith => Text.EndsWith(receiver, argument)
    case Equals => receiver == argument
  }

  /** The run-time type of the `op` argument: an ExpressionType, a string, or anything else. */
  datatype Op = Binary(kind: Comparison) | MethodName(name: string) | OtherObject

  /** The exceptions DynamicCustomerFiltering can throw before it returns. */
  datatype Error =
    | PropertyNotDefined(propertyName: string)                              // Expression.Property
    | BinaryOperatorNotDefined(kind: Comparison, left: ValueType, right: ValueType)  // Expression.MakeBinary
    | MethodNotFound(methodName: string)                                    // no one-string bool method of that name
    | InstanceNotString(instanceType: ValueType)                            // Expression.Call, receiver
    | ArgumentNotString(argumentType: ValueType)                            // Expression.Call, argument
    | NotSupported                                                          // "Invalid Op"

  /** The lambda body: a comparison node or a string-method call node. */
  datatype Body =
    | Compare(kind: Comparison, property: Property, constant: Value)
    | Call(stringMethod: StringMethod, receiver: Property, argument: string)

  /** A body the expression-tree factories accept: its operand types fit. */
  predicate WellTyped(b: Body) {
    match b
    case Compare(k, p, v) => OperatorDefined(k, DeclaredType(p), TypeOf(v))
    case Call(_, p, _) => DeclaredType(p) == StringType
  }

  function PropertyOf(b: Body): Property {
    match b
    case Compare(_, p, _) => p
    case Call(_, p, _) => p
  }

  /**
   * Lines 99-117: resolve the property, then build the body from `op`.
   * The property is resolved first, so a bad name is reported whatever `op` is.
   */
  function Build(propertyName: string, value: Value, op: Op): (r: Result<Body, Error>)
    ensures ResolveProperty(propertyName).None? ==> r == Failure(PropertyNotDefined(propertyName))
    ensures r.Success? ==> WellTyped(r.value) && ResolveProperty(propertyName) == Some(PropertyOf(r.value))
    ensures op.OtherObject? && ResolveProperty(propertyName).Some? ==> r == Failure(NotSupported)
    ensures op.Binary? && ResolveProperty(propertyName).Some? ==>
              (r.Success? <==> OperatorDefined(op.kind, DeclaredType(ResolveProperty(propertyName).value), TypeOf(value)))
    ensures r.Success? && op.Binary? ==> r.value == Compare(op.kind, ResolveProperty(propertyName).value, value)
    ensures op.MethodName? && ResolveProperty(propertyName).Some? ==>
              (r.Success? <==> && LookupStringMethod(op.name).Some?
                               && DeclaredType(ResolveProperty(propertyName).value) == StringType
                               && value.StringValue?)
    ensures r.Success? && op.MethodName? ==>
              r.value == Call(LookupStringMethod(op.name).value, ResolveProperty(propertyName).value, value.s)
  {
    match ResolveProperty(propertyName)
    case None => Failure(PropertyNotDefined(propertyName))
    case Some(p) =>
      match op
      case Binary(k) =>
        if OperatorDefined(k, DeclaredType(p), TypeOf(value)) then Success(Compare(k, p, value))
        else Failure(BinaryOperatorNotDefined(k, DeclaredType(p), TypeOf(value)))
      case MethodName(name) =>
        (match LookupStringMethod(name)
         case None => Failure(MethodNotFound(name))
         case Some(m) =>
           if DeclaredType(p) != StringType then Failure(InstanceNotString(DeclaredType(p)))
           else if !value.StringValue? then Failure(ArgumentNotString(TypeOf(value)))
           else Success(Call(m, p, value.s)))
      case OtherObject => Failure(NotSupported)
  }

  /** The compiled lambda applied to one customer. */
  predicate Eval(b: Body, c: Customer) {
    match b
    case Compare(k, p, v) => Holds(k, Get(c, p), v)
    case Call(m, p, arg) => Get(c, p).StringValue? && Invoke(m, Get(c, p).s, arg)
  }

  /**
   * DynamicCustomerFiltering: the customers the compiled body accepts, in
   * source order, or the error that stopped the construction.
   */
  function DynamicCustomerFiltering(customers: seq<Customer>, propertyName: string, value: Value, op: Op)
    : (r: Result<seq<Customer>, Error>)
    ensures r.Failure? <==> Build(propertyName, value, op).Failure?
    ensures r.Failure? ==> r.error == Build(propertyName, value, op).error
    ensures r.Success? ==> |r.value| <= |customers|
    ensures r.Success? ==>
              forall c :: c in r.value <==> c in customers && Eval(Build(propertyName, value, op).value, c)
    ensures r.Success? ==> Linq.Selects(r.value, customers, (c: Customer) => Eval(Build(propertyName, value, op).value, c))
  {
    match Build(propertyName, value, op)
    case Failure(e) => Failure(e)
    case Success(body) =>
      var filter := (c: Customer) => Eval(body, c);
      Linq.WhereMembers(customers, filter);
      Linq.WhereSelects(customers, filter);
      Success(Linq.Where(customers, filter))
  }

  /** The customers are kept in source order: the result is a subsequence of the input. */
  lemma FilteringKeepsOrder(customers: seq<Customer>, propertyName: string, value: Value, op: Op)
    requires DynamicCustomerFiltering(customers, propertyName, value, op).Success?
    ensures Linq.IsSubsequence(DynamicCustomerFiltering(customers, propertyName, value, op).value, customers)
  {
    var body := Build(propertyName, value, op).value;
    Linq.WhereIsSubsequence(customers, c => Eval(body, c));
  }

  /** Line 17: ("age", n, LessThan) keeps exactly the customers younger than n, in order. */
  lemma AgeLessThan(customers: seq<Customer>, n: int)
    ensures DynamicCustomerFiltering(customers, "age", IntValue(n), Binary(LessThan))
         == Success(Linq.Where(customers, (c: Customer) => c.age < n))
  {
    assert ResolveProperty("age") == Some(Age) by {
      LowerNameIsLowered(Age);
    }
    var body := Compare(LessThan, Age, IntValue(n));
    Linq.WhereCongruent(customers, c => Eval(body, c), (c: Customer) => c.age < n);
  }

  /** Line 24: ("spendAverage", d decimal, GreaterThanOrEqual) keeps the customers spending at least d. */
  lemma SpendAverageAtLeast(customers: seq<Customer>, d: real)
    ensures DynamicCustomerFiltering(customers, "spendAverage", DecimalValue(d), Binary(GreaterThanOrEqual))
         == Success(Linq.Where(customers, (c: Customer) => c.spendAverage >= d))
  {
    assert ResolveProperty("spendAverage") == Some(SpendAverage) by {
      LowerNameIsLowered(SpendAverage);
    }
    var body := Compare(GreaterThanOrEqual, SpendAverage, DecimalValue(d));
    Linq.WhereCongruent(customers, c => Eval(body, c), (c: Customer) => c.spendAverage >= d);
  }

  /** The value is not converted: an int literal against the decimal property is rejected (hence `2000m`). */
  lemma SpendAverageIntLiteralRejected(customers: seq<Customer>, n: int, k: Comparison)
    ensures DynamicCustomerFiltering(customers, "spendAverage", IntValue(n), Binary(k))
         == Failure(BinaryOperatorNotDefined(k, DecimalType, IntType))
  {
    assert ResolveProperty("spendAverage") == Some(SpendAverage) by {
      LowerNameIsLowered(SpendAverage);
    }
  }

  /** Line 32: ("name", s, "Contains") keeps the customers whose name contains s. */
  lemma NameContains(customers: seq<Customer>, s: string)
    ensures DynamicCustomerFiltering(customers, "name", StringValue(s), MethodName("Contains"))
         == Success(Linq.Where(customers, (c: Customer) => Text.Contains(c.name, s)))
  {
    assert ResolveProperty("name") == Some(Name) by {
      LowerNameIsLowered(Name);
    }
    var body := Call(Contains, Name, s);
    Linq.WhereCongruent(customers, c => Eval(body, c), (c: Customer) => Text.Contains(c.name, s));
  }

  /** Line 40: ("name", s, "StartsWith") keeps the customers whose name begins with s, case-sensitively. */
  lemma NameStartsWith(customers: seq<Customer>, s: string)
    ensures DynamicCustomerFiltering(customers, "name", StringValue(s), MethodName("StartsWith"))
         == Success(Linq.Where(customers, (c: Customer) => Text.StartsWith(c.name, s)))
  {
    assert ResolveProperty("name") == Some(Name) by {
      LowerNameIsLowered(Name);
    }
    var body := Call(StartsWith, Name, s);
    Linq.WhereCongruent(customers, c => Eval(body, c), (c: Customer) => Text.StartsWith(c.name, s));
  }

  /**
   * Any comparison request on any property: when the operator is defined for
   * the property's type and the value's type, the filter keeps exactly the
   * customers whose property (left operand) compares with the value (right
   * operand) as requested, in source order; otherwise MakeBinary's error.
   */
  lemma ComparisonFilter(customers: seq<Customer>, propertyName: string, p: Property, value: Value, k: Comparison)
    requires ResolveProperty(propertyName) == Some(p)
    ensures OperatorDefined(k, DeclaredType(p), TypeOf(value)) ==>
              DynamicCustomerFiltering(customers, propertyName, value, Binary(k))
              == Success(Linq.Where(customers, (c: Customer) => Holds(k, Get(c, p), value)))
    ensures !OperatorDefined(k, DeclaredType(p), TypeOf(value)) ==>
              DynamicCustomerFiltering(customers, propertyName, value, Binary(k))
              == Failure(BinaryOperatorNotDefined(k, DeclaredType(p), TypeOf(value)))
  {
    var body := Compare(k, p, value);
    Linq.WhereCongruent(customers, c => Eval(body, c), (c: Customer) => Holds(k, Get(c, p), value));
  }

  /**
   * Any method-name request on any property: it succeeds exactly when the name
   * is one of the string methods, the property is a string and the value is a
   * string; the only string property is the name, and the filter keeps exactly
   * the customers whose name answers the call with the value as argument.
   * Each failure carries the error of the step that stopped it.
   */
  lemma MethodCallFilter(customers: seq<Customer>, propertyName: string, p: Property, value: Value, methodName: string)
    requires ResolveProperty(propertyName) == Some(p)
    ensures LookupStringMethod(methodName).None? ==>
              DynamicCustomerFiltering(customers, propertyName, value, MethodName(methodName))
              == Failure(MethodNotFound(methodName))
    ensures LookupStringMethod(methodName).Some? && DeclaredType(p) == StringType && !value.StringValue? ==>
              DynamicCustomerFiltering(customers, propertyName, value, MethodName(methodName))
              == Failure(ArgumentNotString(TypeOf(value)))
    ensures DynamicCustomerFiltering(customers, propertyName, value, MethodName(methodName)).Success?
        <==> LookupStringMethod(methodName).Some? && DeclaredType(p) == StringType && value.StringValue?
    ensures LookupStringMethod(methodName).Some? && DeclaredType(p) == StringType && value.StringValue? ==>
              && p == Name
              && DynamicCustomerFiltering(customers, propertyName, value, MethodName(methodName))
                 == Success(Linq.Where(customers,
                                       (c: Customer) => Invoke(LookupStringMethod(methodName).value, c.name, value.s)))
  {
    if LookupStringMethod(methodName).Some? && DeclaredType(p) == StringType && value.StringValue? {
      var m := LookupStringMethod(methodName).value;
      var body := Call(m, p, value.s);
      Linq.WhereCongruent(customers, c => Eval(body, c), (c: Customer) => Invoke(m, c.name, value.s));
    }
  }

  /** A string method on a property that is not a string is rejected, whatever the value. */
  lemma StringMethodOnNonStringRejected(customers: seq<Customer>, propertyName: string, p: Property, value: Value, methodName: string)
    requires ResolveProperty(propertyName) == Some(p) && DeclaredType(p) != StringType
    requires LookupStringMethod(methodName).Some?
    ensures DynamicCustomerFiltering(customers, propertyName, value, MethodName(methodName))
         == Failure(InstanceNotString(DeclaredType(p)))
  {
  }

  /** An unknown property name fails, whatever the customers, the value and the operator. */
  lemma UnknownPropertyRejected(customers: seq<Customer>, name: string, value: Value, op: Op)
    requires forall p :: !Text.EqualsIgnoreCase(DeclaredName(p), name)
    ensures DynamicCustomerFiltering(customers, name, value, op) == Failure(PropertyNotDefined(name))
  {
  }

  /** An operator object that is neither an ExpressionType nor a string is not supported. */
  lemma OtherOperatorRejected(customers: seq<Customer>, p: Property, value: Value)
    ensures DynamicCustomerFiltering(customers, DeclaredName(p), value, OtherObject) == Failure(NotSupported)
  {
    assert ResolveProperty(DeclaredName(p)) == Some(p);
  }

  /** The opposite comparison. */
  function Negate(k: Comparison): (r: Comparison)
    ensures (r == Equal || r == NotEqual) <==> (k == Equal || k == NotEqual)
  {
    match k
    case Equal => NotEqual
    case NotEqual => Equal
    case LessThan => GreaterThanOrEqual
    case LessThanOrEqual => GreaterThan
    case GreaterThan => LessThanOrEqual
    case GreaterThanOrEqual => LessThan
  }

  /** On operands of one type, the opposite comparison holds exactly when the comparison does not. */
  lemma NegateComplements(k: Comparison, a: Value, b: Value)
    requires OperatorDefined(k, TypeOf(a), TypeOf(b))
    ensures Holds(Negate(k), a, b) == !Holds(k, a, b)
  {
    match (a, b)
    case (DateTimeValue(x), DateTimeValue(y)) =>
      assert Before(x, y) || x == y || Before(y, x);
      assert !(Before(x, y) && Before(y, x));
    case _ =>
  }

  /** Filtering a comparison's result again with the opposite comparison leaves nothing. */
  lemma ComplementFilterIsEmpty(customers: seq<Customer>, propertyName: string, value: Value, k: Comparison)
    requires DynamicCustomerFiltering(customers, propertyName, value, Binary(k)).Success?
    ensures DynamicCustomerFiltering(
              DynamicCustomerFiltering(customers, propertyName, value, Binary(k)).value,
              propertyName, value, Binary(Negate(k)))
         == Success([])
  {
    var kept := DynamicCustomerFiltering(customers, propertyName, value, Binary(k)).value;
    var p := ResolveProperty(propertyName).value;
    var body := Compare(Negate(k), p, value);
    assert Build(propertyName, value, Binary(Negate(k))) == Success(body);
    forall c | c in kept ensures !Eval(body, c) {
      NegateComplements(k, Get(c, p), value);
    }
    Linq.WhereAllFalse(kept, c => Eval(body, c));
  }
}
