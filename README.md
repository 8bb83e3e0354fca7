# LINQ teaching repository — a verified model of its hand-written logic

This repository teaches LINQ in C#. Most of its files only call the built-in
sequence operators and print what comes back. This project models the parts
that hold logic of their own, and proves what that logic promises:

- **`DynamicCustomerFiltering`** (ExpressionTrees). It builds the predicate
  `c => c.<property> <op> value` or `c => c.<property>.<Method>(value)` at run
  time and filters customers with it.
  - The expression tree is the datatype `Body`.
  - Its compilation is the interpreter `Eval`.
  - Every exception the construction can throw is an `Error` value.
- **`EmployeeComparer.Compare`** (SortingData). It parses employee numbers
  `YEAR-DEP-SERIAL` and orders them by department, then year, then serial.
  Parsing fails with `FormatException`, `OverflowException` or
  `IndexOutOfRangeException`.
- **`Separate` / `isUpperOrDigit`** (Another_playlist). `Separate` cuts a
  caption before every upper-case letter or digit and joins the pieces with
  spaces. It is an imperative `while` loop, proved against the function
  `Pieces`.
- **The pagination helpers.**
  - `Paginate` and `Paginate2` (DataPartitioning) normalise page 1 and size 10.
  - `Paginante` (CustomLINQExtensionMethod) does no normalisation.
  - The skip count `(page - 1) * size` is C# `int` arithmetic. It is modelled
    with explicit 32-bit wrap-around (`Int32.Wrap`).
- **The filter family.**
  - The `foreach … yield return` filters of CoreOfLINQ and FunctionalProgramming.
  - The eleven fixed-predicate employee filters.
  - The eager list-building filters.
  - The deferred-versus-immediate example of `Example02.main`: the source list
    is a class (`Collections.List`), and a deferred filter holds a reference to
    it and reads it only when it is pulled.
- **The pure and impure list helpers** (PureVSImpureFunctions).
  - The static list becomes an object that the impure methods name in their
    `modifies` clauses.
  - `AddInteger4` copies its argument and changes nothing.

Shared pieces:

- `Linq.Where`, `Linq.Skip` and `Linq.Take` give the semantics of the LINQ
  operators the code calls. Every hand-written filter is specified through
  `Where`.
- `Text` gives the ordinal string operations.
- `Int32` gives the 32-bit range and wrap-around.
- `Records` gives the `Customer` and `Employee` records.

`Expression.Property(parameter, name)` resolves the property name ignoring
case, so `ResolveProperty` is case-insensitive.

## Model

| member | source | states |
|---|---|---|
| ExpressionTrees.Get | Another_playlist/Data/Customer.cs:6-13 | reading a customer property yields a value of that property's declared type |
| ExpressionTrees.ResolveProperty | ExpressionTrees/Program.cs:100 | the property found is exactly the one whose declared name equals the requested name ignoring case; none otherwise |
| ExpressionTrees.Build | ExpressionTrees/Program.cs:99-117 | an unknown name fails with PropertyNotDefined before `op` is looked at; a built body is well typed and names the resolved property; an `op` that is neither an ExpressionType nor a string gives NotSupported; a comparison request succeeds exactly when the operator is defined for the property type and the unconverted value type, and then builds that comparison of the property against the value; a method request succeeds exactly when the name is a one-string `bool` method of string, the property is a string and the value is a string, and then builds the call of that method on the property with the value as argument |
| ExpressionTrees.DynamicCustomerFiltering | ExpressionTrees/Program.cs:97-125 | fails exactly when building the predicate fails, with the same error; otherwise keeps every customer the compiled predicate accepts, once per occurrence and in source order, and no other customer |
| ExpressionTrees.ComparisonFilter | ExpressionTrees/Program.cs:103-122 | for every resolved property and comparison: when the operator is defined for the two operand types, the result is the customers whose property (left) compares with the value (right) as requested, in order; otherwise MakeBinary's error |
| ExpressionTrees.MethodCallFilter | ExpressionTrees/Program.cs:108-122 | for every resolved property and method name: an unknown name fails with MethodNotFound, a non-string value with ArgumentNotString; the request succeeds exactly when name, property type and value type all fit, and then the result is the customers whose name answers the method call with the value, in order |
| ExpressionTrees.FilteringKeepsOrder | ExpressionTrees/Program.cs:120-122 | the customers kept are a subsequence of the input, in source order |
| ExpressionTrees.AgeLessThan | ExpressionTrees/Program.cs:17 | ("age", n, LessThan) is the filter `age < n` |
| ExpressionTrees.SpendAverageAtLeast | ExpressionTrees/Program.cs:24 | ("spendAverage", d decimal, GreaterThanOrEqual) is the filter `spendAverage >= d` |
| ExpressionTrees.SpendAverageIntLiteralRejected | ExpressionTrees/Program.cs:101-105 | an `int` value against the decimal property fails with BinaryOperatorNotDefined for every comparison, since the constant is not converted |
| ExpressionTrees.NameContains | ExpressionTrees/Program.cs:32 | ("name", s, "Contains") keeps the customers whose name contains s |
| ExpressionTrees.NameStartsWith | ExpressionTrees/Program.cs:40 | ("name", s, "StartsWith") keeps the customers whose name begins with s |
| ExpressionTrees.StringMethodOnNonStringRejected | ExpressionTrees/Program.cs:112 | a string method on any property that is not a string fails with InstanceNotString, whatever the value |
| ExpressionTrees.UnknownPropertyRejected | ExpressionTrees/Program.cs:100 | a name matching no property fails with PropertyNotDefined, whatever the customers, value and operator |
| ExpressionTrees.OtherOperatorRejected | ExpressionTrees/Program.cs:103-117 | an operator object that is neither an ExpressionType nor a string fails with NotSupported |
| ExpressionTrees.NegateComplements | ExpressionTrees/Program.cs:105 | on operands the operator accepts, the opposite comparison holds exactly when the comparison does not |
| ExpressionTrees.ComplementFilterIsEmpty | ExpressionTrees/Program.cs:97-125 | filtering a comparison's result with the opposite comparison leaves nothing |
| SortingData.ToInt32 | SortingData/EmployeeComparer.cs:12-19 | succeeds exactly on non-empty digit strings whose value fits in an `int`, with that value; an empty or non-digit string gives FormatException; a too-large digit string gives OverflowException |
| SortingData.ToInt32LeadingZero | SortingData/EmployeeComparer.cs:18-19 | a leading zero does not change the parsed number |
| SortingData.Part | SortingData/EmployeeComparer.cs:12-19 | indexing the split parts succeeds exactly when the index is in range, with that part |
| SortingData.Compare | SortingData/EmployeeComparer.cs:5-36 | succeeds exactly when both numbers parse; different departments give the department comparison, else different years give the year comparison, else the serial comparison |
| SortingData.CompareZeroIffSameNumber | SortingData/EmployeeComparer.cs:21-35 | the result is 0 exactly when department, year value and serial value all agree |
| SortingData.CompareAntisymmetric | SortingData/EmployeeComparer.cs:21-35 | swapping the employees negates the result |
| SortingData.CompareTransitive | SortingData/EmployeeComparer.cs:21-35 | "less than" is transitive |
| SortingData.CompareReflexive | SortingData/EmployeeComparer.cs:5-36 | an employee with a valid number compares equal to itself |
| SortingData.SplitThreeParts | SortingData/EmployeeComparer.cs:9-10 | splitting `year-dep-serial` on '-' gives the three parts |
| SortingData.LeadingZeroTies | SortingData/EmployeeComparer.cs:18-25 | serials differing only by a leading zero tie |
| SortingData.SameNumberTies | SortingData/EmployeeComparer.cs:21-25 | numbers that parse to the same triple tie |
| SortingData.ParseExamples | SortingData/EmployeeComparer.cs:9-19 | "2017-FI-42" and "2017-FI-0042" parse to (2017, "FI", 42) |
| SortingData.LeadingZerosExample | SortingData/EmployeeComparer.cs:5-36 | "2017-FI-0042" ties "2017-FI-42" |
| SortingData.SplitExtraParts | SortingData/EmployeeComparer.cs:9-10 | splitting a number with a fourth part gives the three parts followed by the split of the rest |
| SortingData.ExtraPartsIgnored | SortingData/EmployeeComparer.cs:9-19 | parts after the third are ignored |
| SortingData.TwoPartsRejected | SortingData/EmployeeComparer.cs:18 | a number with only two parts fails with IndexOutOfRange when its serial is read |
| SortingData.TwoPartsExample | SortingData/EmployeeComparer.cs:9-19 | "2017-FI" against "2017-FI-42" fails with IndexOutOfRange |
| TitleFormatting.IsUpperOrDigit | Another_playlist/Data/ExtnensionPrint.cs:45-50 | true exactly for an ASCII digit or upper-case letter |
| TitleFormatting.Pieces | Another_playlist/Data/ExtnensionPrint.cs:28-40 | there is always at least one piece |
| TitleFormatting.PiecesSnoc | Another_playlist/Data/ExtnensionPrint.cs:34-38 | one more character either opens a new piece (a mark) or extends the last piece |
| TitleFormatting.Separate | Another_playlist/Data/ExtnensionPrint.cs:26-43 | the loop's output is the pieces of `s` joined by spaces |
| TitleFormatting.SeparateStep | Another_playlist/Data/ExtnensionPrint.cs:32-40 | one iteration keeps the loop invariant "collected pieces plus the open piece are the pieces of the prefix scanned" |
| TitleFormatting.PiecesConcat | Another_playlist/Data/ExtnensionPrint.cs:28-40 | the pieces concatenated without separators give back `s` |
| TitleFormatting.PiecesCount | Another_playlist/Data/ExtnensionPrint.cs:32-40 | there is one piece more than there are upper-case letters and digits |
| TitleFormatting.PiecesShape | Another_playlist/Data/ExtnensionPrint.cs:34-37 | the first piece has no mark, and every later piece has exactly one, at its start |
| TitleFormatting.PiecesUnique | Another_playlist/Data/ExtnensionPrint.cs:34-37 | any cut of `s` of that shape is the one `Separate` collects |
| TitleFormatting.CutSnoc | Another_playlist/Data/ExtnensionPrint.cs:34-37 | a cut with one more piece has the shape exactly when the front does and the new piece is a mark piece |
| TitleFormatting.CutOfEmpty | Another_playlist/Data/ExtnensionPrint.cs:32-36 | the only cut of the empty text is one empty piece |
| TitleFormatting.CutEndingInMark | Another_playlist/Data/ExtnensionPrint.cs:34-37 | a cut of text ending in a mark ends with that mark alone, after a cut of the rest |
| TitleFormatting.CutEndingInOther | Another_playlist/Data/ExtnensionPrint.cs:34-37 | a cut of text ending in another character is a cut of the rest with that character added to its last piece |
| TitleFormatting.JoinLength | Another_playlist/Data/ExtnensionPrint.cs:42 | joining adds one separator between each pair of pieces |
| TitleFormatting.SeparateLength | Another_playlist/Data/ExtnensionPrint.cs:42 | the output length is the input length plus the number of upper-case letters and digits |
| TitleFormatting.EmptyCaption | Another_playlist/Data/ExtnensionPrint.cs:32-42 | the empty text gives the empty caption |
| TitleFormatting.LeadingMarkGivesLeadingSpace | Another_playlist/Data/ExtnensionPrint.cs:34-42 | a text starting with a mark has an empty first piece and a caption starting with a space |
| TitleFormatting.HelloCaption | Another_playlist/Data/ExtnensionPrint.cs:26-43 | "Hello" gives " Hello" |
| TitleFormatting.EmployeesCaption | Another_playlist/Data/ExtnensionPrint.cs:26-43 | "empsSkipFirst10" gives "emps Skip First 1 0" |
| DataPartitioning.EffectivePage | DataPartitioning/ExtensionPagination.cs:10 | the page used is at least 1, and is the page given when that is positive |
| DataPartitioning.EffectiveSize | DataPartitioning/ExtensionPagination.cs:11 | the size used is at least 1, and is the size given when that is positive |
| DataPartitioning.Paginate | DataPartitioning/ExtensionPagination.cs:5-15 | at most one page of elements; when the 32-bit skip count does not overflow, the contiguous slice from `(page - 1) * size`, clipped to the source |
| DataPartitioning.Paginate2 | DataPartitioning/ExtensionPagination.cs:17-37 | throws OverflowException exactly when the source has more than int.MaxValue elements (Count() at line 30); otherwise the same bound and slice as Paginate |
| DataPartitioning.Paginate2SameAsPaginate | DataPartitioning/ExtensionPagination.cs:20-36 | Paginate2 returns what Paginate returns for every source it can count, and throws for every longer one |
| DataPartitioning.PaginateUnbounded | DataPartitioning/ExtensionPagination.cs:13 | without wrap-around the page is always the slice from `(page - 1) * size` |
| DataPartitioning.PaginateAgreesWhenNoOverflow | DataPartitioning/ExtensionPagination.cs:13 | where nothing overflows, the page as written is the page intended |
| DataPartitioning.OverflowReturnsFirstPage | DataPartitioning/ExtensionPagination.cs:13 | page 65536 of size 65536 wraps round to the first page of a non-empty source instead of an empty page |
| DataPartitioning.NonPositivePageIsFirstPage | DataPartitioning/ExtensionPagination.cs:10 | a page number of 0 or less gives page 1 |
| DataPartitioning.NonPositiveSizeIsTen | DataPartitioning/ExtensionPagination.cs:11 | a size of 0 or less gives pages of 10 |
| DataPartitioning.PagePastTheEndIsEmpty | DataPartitioning/ExtensionPagination.cs:13 | a page starting at or after the end of the source is empty |
| DataPartitioning.FirstPagesArePrefix | DataPartitioning/ExtensionPagination.cs:13 | pages 1 to k in turn are the first k * size elements of the source, or all of it when it is shorter |
| DataPartitioning.SkipTakeIsSlice | DataPartitioning/ExtensionPagination.cs:13 | Skip then Take with non-negative counts is the clipped slice |
| CustomLinqExtensions.Paginante | CustomLINQExtensionMethod/Extensions.cs:23-27 | a size of 0 or less gives nothing; at most `pagesSize` elements; without overflow, the slice from `(page - 1) * pagesSize`, or from 0 for a page of 0 or less |
| CustomLinqExtensions.DefaultArguments | CustomLINQExtensionMethod/Extensions.cs:23-26 | page 1 and size 10 give the first ten elements, or all of them when there are fewer |
| CustomLinqExtensions.NonPositivePageIsFirstPage | CustomLINQExtensionMethod/Extensions.cs:26 | with no normalisation, page 0 or less still returns page 1 |
| CustomLinqExtensions.PaginanteWhere | CustomLINQExtensionMethod/Extensions.cs:28-33 | every element returned is from the source and satisfies the predicate; at most `pagesSize` of them; none for a size of 0 or less |
| CustomLinqExtensions.PaginanteWhereIsPageOfFiltered | CustomLINQExtensionMethod/Extensions.cs:31-32 | the predicate overload is the page of the filtered sequence |
| Linq.Where | CoreOfLINQ/ExtensionFunctional.cs:10-16 | filtering never lengthens the sequence |
| Linq.WhereMembers | CoreOfLINQ/ExtensionFunctional.cs:10-16 | an element is in the result exactly when it is in the source and passes |
| Linq.WhereIsSubsequence | CoreOfLINQ/ExtensionFunctional.cs:10-16 | the result is a subsequence of the source, in source order |
| Linq.WhereCount | CoreOfLINQ/ExtensionFunctional.cs:10-16 | each element occurs in the result as often as in the source when it passes, and not at all otherwise |
| Linq.WhereSelects | CoreOfLINQ/ExtensionFunctional.cs:10-16 | the filter's result is an ordered subsequence holding every passing occurrence and nothing else |
| Linq.SelectsUnique | CoreOfLINQ/ExtensionFunctional.cs:10-16 | only one sequence is an ordered subsequence holding every passing occurrence and nothing else, so that description fixes a filter's result completely |
| Linq.WhereAppend | CoreOfLINQ/ExtensionFunctional.cs:35-41 | filtering a concatenation filters each part |
| Linq.WhereIdempotent | FunctionalProgramming/ExtensionFunctional01.cs:10 | filtering twice with one predicate is filtering once |
| Linq.WhereFusion | FunctionalProgramming/ExtensionFunctional02.cs:10 | filtering by p then q is filtering by "p and q" |
| Linq.WhereAllTrue | CoreOfLINQ/ExtensionFunctional.cs:10-16 | a predicate true on every element keeps the source |
| Linq.WhereAllFalse | FunctionalProgramming/ExtensionFunctional01.cs:10 | a predicate false on every element keeps nothing |
| Linq.WherePartition | FunctionalProgramming/ExtnensionProcedural.cs:93-115 | complementary predicates split the source between them |
| Linq.Skip | CustomLINQExtensionMethod/Extensions.cs:26 | Enumerable.Skip: a non-positive count skips nothing; the result is the last elements of the source |
| Linq.Take | CustomLINQExtensionMethod/Extensions.cs:26 | Enumerable.Take: a non-positive count takes nothing; the result is the first elements of the source |
| Linq.SkipTakeSlice | CustomLINQExtensionMethod/Extensions.cs:26 | Skip then Take with non-negative counts is the clipped slice |
| CoreOfLinq.Filter | CoreOfLINQ/ExtensionFunctional.cs:6-17 | yields every employee the predicate accepts, once per occurrence and in source order, and no other employee |
| CoreOfLinq.FilterAllTrue | CoreOfLINQ/ExtensionFunctional.cs:10-16 | an always-true predicate yields the source unchanged |
| CoreOfLinq.Pull | CoreOfLINQ/Program.cs:31-43 | enumerating a deferred filter yields exactly the elements the list now holds that pass |
| CoreOfLinq.FilterIntYield | CoreOfLINQ/ExtensionFunctional.cs:18-30 | the call keeps the list itself; pulling it filters the list's contents at pull time |
| CoreOfLinq.FilterIntNewList | CoreOfLINQ/ExtensionFunctional.cs:31-43 | the loop builds the filter of the source contents at call time |
| CoreOfLinq.PullAfterAdd | CoreOfLINQ/Example02.cs:24-25 | after an Add, a pull sees the new element at the end, if it passes |
| CoreOfLinq.PullAfterRemove | CoreOfLINQ/Example02.cs:26 | after a Remove, a pull no longer sees the first occurrence of the removed element |
| CoreOfLinq.AddTwoRemoveFour | CoreOfLINQ/Example02.cs:24-26 | Add(10), Add(12), Remove(4) turn 1..9 into 1,2,3,5,6,7,8,9,10,12 |
| CoreOfLinq.EvenOfOneToNine | CoreOfLINQ/Example02.cs:20 | the even numbers of 1..9 are 2,4,6,8 |
| CoreOfLinq.EvenAfterChanges | CoreOfLINQ/Example02.cs:30-35 | the even numbers of the changed list are 2,6,8,10,12 |
| CoreOfLinq.DeferredVersusImmediate | CoreOfLINQ/Example02.cs:7-40 | after the changes, the Where and yield filters give 2,6,8,10,12 and the list-building filter gives 2,4,6,8 |
| Collections.List.FromSeq | CoreOfLINQ/Example02.cs:9 | a new list holds the given elements |
| Collections.List.Add | CoreOfLINQ/Example02.cs:24-25 | List.Add appends and keeps the earlier elements |
| Collections.List.Remove | CoreOfLINQ/Example02.cs:26 | List.Remove drops the first occurrence and reports whether there was one |
| Collections.RemoveFirstRemovesOne | CoreOfLINQ/Example02.cs:26 | removing takes away exactly one copy of the element, if present |
| FunctionalProgramming.PrefixTestIgnoresCase | FunctionalProgramming/ExtnensionProcedural.cs:10 | lower-casing both sides and then testing the prefix is a case-insensitive prefix test |
| FunctionalProgramming.SuffixTestIgnoresCase | FunctionalProgramming/ExtnensionProcedural.cs:38 | the same for a suffix test |
| FunctionalProgramming.EqualityTestIgnoresCase | FunctionalProgramming/ExtnensionProcedural.cs:62 | the same for an equality test |
| FunctionalProgramming.GetEmployeesWithFirstNameStartsWith | FunctionalProgramming/ExtnensionProcedural.cs:5-17 | keeps every employee whose first name starts with the value, ignoring case, once per occurrence and in source order, and no other employee |
| FunctionalProgramming.GetEmployeesWithFirstNameStartsWithOldWay | FunctionalProgramming/ExtnensionProcedural.cs:18-30 | the loop returns the same employees, in the same order, as the yield version |
| FunctionalProgramming.GetEmployeesWithFirstNameEndsWith | FunctionalProgramming/ExtnensionProcedural.cs:33-43 | keeps every employee whose first name ends with the value, ignoring case, once per occurrence and in source order, and no other employee |
| FunctionalProgramming.GetEmployeesWithLastNameStartsWith | FunctionalProgramming/ExtnensionProcedural.cs:45-55 | keeps every employee whose last name starts with the value, ignoring case, once per occurrence and in source order, and no other employee |
| FunctionalProgramming.GetEmployeesWithDepartmentEqualsTo | FunctionalProgramming/ExtnensionProcedural.cs:57-67 | keeps every employee whose department equals the value, ignoring case, once per occurrence and in source order, and no other employee |
| FunctionalProgramming.GetEmployeesHiredInYear | FunctionalProgramming/ExtnensionProcedural.cs:69-79 | keeps every employee hired in that year, once per occurrence and in source order, and no other employee |
| FunctionalProgramming.GetEmployeesByGender | FunctionalProgramming/ExtnensionProcedural.cs:81-91 | keeps every employee whose gender equals the value, ignoring case, once per occurrence and in source order, and no other employee |
| FunctionalProgramming.GetEmployeesWithHealthInsuranceValueEqualsTo | FunctionalProgramming/ExtnensionProcedural.cs:93-103 | keeps every employee with that health-insurance flag, once per occurrence and in source order, and no other employee |
| FunctionalProgramming.GetEmployeesWithPensionPlanValueEqualsTo | FunctionalProgramming/ExtnensionProcedural.cs:105-115 | keeps every employee with that pension-plan flag, once per occurrence and in source order, and no other employee |
| FunctionalProgramming.GetEmployeesWithSalaryEqualsTo | FunctionalProgramming/ExtnensionProcedural.cs:117-127 | keeps every employee with that salary, once per occurrence and in source order, and no other employee |
| FunctionalProgramming.GetEmployeesWithSalaryGreaterThan | FunctionalProgramming/ExtnensionProcedural.cs:129-139 | keeps every employee earning more than the value, once per occurrence and in source order, and no other employee |
| FunctionalProgramming.GetEmployeesWithSalaryLessThan | FunctionalProgramming/ExtnensionProcedural.cs:141-151 | keeps every employee earning less than the value, once per occurrence and in source order, and no other employee |
| FunctionalProgramming.ProceduralFiltersKeepOrder | FunctionalProgramming/ExtnensionProcedural.cs:5-67 | the name and department filters return subsequences of the input, in order |
| FunctionalProgramming.EmptySearchMatchesEveryone | FunctionalProgramming/ExtnensionProcedural.cs:10-50 | an empty search string keeps every employee in the prefix and suffix filters |
| FunctionalProgramming.HealthInsurancePartition | FunctionalProgramming/ExtnensionProcedural.cs:93-103 | the `true` and `false` filters are disjoint and together cover all employees |
| FunctionalProgramming.PensionPlanPartition | FunctionalProgramming/ExtnensionProcedural.cs:105-115 | the `true` and `false` filters are disjoint and together cover all employees |
| FunctionalProgramming.SalaryTrichotomy | FunctionalProgramming/ExtnensionProcedural.cs:117-151 | each employee is in exactly one of the equal, greater and less results, and their sizes add up to the input size |
| FunctionalProgramming.Filter | FunctionalProgramming/ExtensionFunctional01.cs:6-15 | yields every employee the predicate accepts, once per occurrence and in source order, and no other employee; never more than were given |
| FunctionalProgramming.FilterKeepsOrder | FunctionalProgramming/ExtensionFunctional02.cs:6-15 | the result is a subsequence of the input, in source order |
| FunctionalProgramming.FilterIdempotent | FunctionalProgramming/ExtensionFunctional01.cs:10 | filtering twice with one predicate is filtering once |
| FunctionalProgramming.FilterConstant | FunctionalProgramming/ExtensionFunctional01.cs:10 | always-false keeps nothing; always-true keeps everything |
| FunctionalProgramming.FilterThenFilter | FunctionalProgramming/ExtensionFunctional02.cs:10 | Filter(p) then Filter(q) equals Filter(p && q) |
| PureVsImpure.Appended | PureVSImpureFunctions/PureVsImpureFunctions.cs:53-54 | the copy is one longer: the argument's elements followed by `num` |
| PureVsImpure.PureVsImpureFunctions.constructor | PureVSImpureFunctions/PureVsImpureFunctions.cs:8 | the shared list starts as 1 to 9 |
| PureVsImpure.PureVsImpureFunctions.AddInteger1 | PureVSImpureFunctions/PureVsImpureFunctions.cs:37-40 | appends `num` to the shared list; the earlier elements are unchanged |
| PureVsImpure.PureVsImpureFunctions.AddInteger2 | PureVSImpureFunctions/PureVsImpureFunctions.cs:41-45 | the caller's variable goes up by one (with 32-bit wrap at int.MaxValue), and the new value is appended |
| PureVsImpure.PureVsImpureFunctions.AddInteger3 | PureVSImpureFunctions/PureVsImpureFunctions.cs:46-50 | appends exactly one element, the random number |
| PureVsImpure.PureVsImpureFunctions.AddInteger4 | PureVSImpureFunctions/PureVsImpureFunctions.cs:51-57 | returns a fresh list holding the argument followed by `num`; the argument is unchanged |
| PureVsImpure.RunMain | PureVSImpureFunctions/PureVsImpureFunctions.cs:9-27 | `n` ends at 11, the shared list gains 10, 11 and the random number, and only the copy holds 12 |
| Text.ToLowerInvariant | FunctionalProgramming/ExtnensionProcedural.cs:10 | lower-casing keeps the length and lower-cases each character |
| Text.LowerEqualsIffIgnoreCase | FunctionalProgramming/ExtnensionProcedural.cs:62 | two strings lower-case to the same string exactly when they are equal ignoring case |
| Text.Split | SortingData/EmployeeComparer.cs:9-10 | String.Split on one character: at least one part, and no part contains the separator |
| Text.SplitJoin | SortingData/EmployeeComparer.cs:9-10 | joining the parts with the separator gives back the string |
| Text.CompareOrdinal | SortingData/EmployeeComparer.cs:34 | the result is -1, 0 or 1, and 0 exactly for equal strings |
| Text.CompareOrdinalAntisymmetric | SortingData/EmployeeComparer.cs:34 | swapping the strings negates the result |
| Text.CompareOrdinalTransitive | SortingData/EmployeeComparer.cs:34 | "less than" on strings is transitive |
| Text.CompareInt | SortingData/EmployeeComparer.cs:25-29 | int.CompareTo: -1, 0 or 1, negative exactly when less, 0 exactly when equal |
| Int32.Wrap | DataPartitioning/ExtensionPagination.cs:13 | the result of unchecked 32-bit arithmetic is in range, equals the exact result when that fits, and differs from it by a multiple of 2^32 |

## Left out

- Console output. Every `Print` method, and the printing in every `main`/`Main`, is not part of this model. The expected outputs of the `main` methods are stated as lemmas instead.
- Loading data. `Repository.LoadEmployees` and `GetCustomers` are not part of this model. The customer and employee lists are parameters. The per-call reload in the procedural filters is not modelled.
- Entity Framework Core, the database and its migration are not modelled.
- Expression-tree compilation is not modelled. `Expression.Lambda(...).Compile()` is replaced by the interpreter `Eval`.
- ExpressionTrees.Build: reflection is not modelled in full. `GetMethod` is replaced by a lookup over the four one-string-argument `bool` methods of `string`: `Contains`, `StartsWith`, `EndsWith` and `Equals`. `GetMethod` also finds `IndexOf`, `LastIndexOf` and `CompareTo`, which fail later in `Expression.Lambda` because they return `int`. It also finds the static `IsNullOrEmpty` and `IsNullOrWhiteSpace`, which fail in `Expression.Call`. The model reports every other name as MethodNotFound, so it does not tell those later exceptions apart.
- `MakeBinary` kinds other than the six comparisons, such as `And` and `Or` on booleans, are not modelled.
- Implicit numeric conversion is not modelled: operand types must match exactly. This matches `MakeBinary` with an unconverted constant.
- The deferred `Where` returned by `DynamicCustomerFiltering` is modelled as its value. The customer sequence is an immutable input, so pulling it later gives the same result.
- Culture-sensitive text is replaced by ordinal ASCII operations: `StartsWith`/`EndsWith` with the current culture, `ToLowerInvariant` beyond ASCII letters, and Unicode `char.IsUpper`/`char.IsDigit`.
- SortingData.Compare: models `string.CompareTo` for departments as an ordinal comparison returning -1, 0 or 1. The source's comparison is culture-sensitive.
- `Convert.ToInt32`'s tolerance of surrounding whitespace and of a sign is not modelled. Only digit strings parse.
- Null values are not modelled: null employee numbers, null lists and null employees.
- C# `decimal` is modelled as `real`, `long` as `int`, and `DateTime` as a date without time of day.
- `Paginate2`'s `Math.Ceiling((decimal)total / size)` is never read. The model computes it as an integer ceiling division.
- CustomLinqExtensions.Paginante: states the slice result only when `(page - 1) * pagesSize` fits in an `int`. The body models the wrap-around, as in `Paginate`.
- `Random.Next()` is a parameter. PureVsImpureFunctions.AddInteger3 receives the number it drew, constrained to `0 <= x < int.MaxValue`.
- Aliasing between the static list and other references is modelled only through the `List` object identity. There is no concurrency.
- The remaining files, such as the `Delegate.cs` delegate demo, only call built-in operators or print, so they are not modelled.

## Findings

| source | as written | input that shows it | evidently intended | confidence | as-written member | corrected member |
|---|---|---|---|---|---|---|
| DataPartitioning/ExtensionPagination.cs:13 | the skip count `(page - 1) * size` is 32-bit `int` arithmetic and wraps around | page 65536, size 65536, any source of 1 to 4294901760 elements: the skip wraps to -65536 and the first page comes back | an empty page, because the page starts beyond the end of the source | not executed | DataPartitioning.OverflowReturnsFirstPage | DataPartitioning.PaginateUnbounded |
