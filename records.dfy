/**
 * The record types the modelled code reads. `Customer` has the fields of
 * Another_playlist/Data/Customer.cs; `Employee` has the fields the employee
 * filters and the comparer read (its class is not part of this model).
 * C#'s `decimal` is modelled as `real` and `long`/`int` as `int`.
 */
module Records {

  /** A calendar date; the time of day is not modelled. */
  datatype Date = Date(year: int, month: int, day: int)

  /** DateTime's `<`: earlier year, then earlier month, then earlier day. */
  predicate Before(a: Date, b: Date) {
    a.year < b.year
    || (a.year == b.year && a.month < b.month)
    || (a.year == b.year && a.month == b.month && a.day < b.day)
  }

  datatype Customer = Customer(
    id: int,
    name: string,
    telephone: int,
    age: int,
    spendAverage: real,
    categoryId: int,
    isActive: bool,
    joinDate: Date)

  datatype Employee = Employee(
    employeeNo: string,
    firstName: string,
    lastName: string,
    department: string,
    gender: string,
    hireDate: Date,
    hasHealthInsurance: bool,
    hasPensionPlan: bool,
    salary: real)
}
