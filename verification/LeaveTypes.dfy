/** The rows of the leave database, as the Prisma schema declares them. Amounts are integer hundredths
    of a day, dates are day numbers, and identifiers are the schema's string keys. */
module LeaveTypes {

  type Id = string

  datatype Option<+T> = None | Some(value: T)

  datatype Role = EMPLOYEE | TEAM_LEAD | DEPT_HEAD | HR_ADMIN | TENANT_ADMIN

  datatype Status = PENDING | TEAM_LEAD_COMMENTED | DEPT_APPROVED | REJECTED | APPROVED | CANCELLED

  datatype EntryType = ACCRUAL | ADJUSTMENT | DEDUCTION | CARRY_OVER | EXPIRY | REINSTATEMENT

  datatype LeaveType = Annual | Sick | Personal | Parental | Custom

  datatype AccrualFrequency = Monthly | Yearly | OneTime | Manual

  datatype CarryOverPolicy = NoCarryOver | Full | Limited | NotApplicable

  datatype Tenant = Tenant(id: Id, hrDepartmentId: Option<Id>)

  datatype Department = Department(id: Id, tenantId: Id, isActive: bool)

  datatype User = User(id: Id, tenantId: Id, role: Role, departmentId: Option<Id>)

  /** departmentIds are the policy's rows of the join table, unique per policy. */
  datatype Policy = Policy(
    id: Id, tenantId: Id, leaveType: LeaveType, accrual: AccrualFrequency, accrualRate: int, maxBalance: int,
    carryOverPolicy: CarryOverPolicy, carryOverLimit: Option<int>, isActive: bool, departmentIds: seq<Id>)

  /** An approver id with its date; the handlers always write the two columns together. */
  datatype Stamp = Stamp(approver: Id, date: int)

  datatype LeaveRequest = LeaveRequest(
    id: Id, userId: Id, tenantId: Id, policyId: Id, departmentId: Id,
    startDate: int, endDate: int, totalDays: int, reason: string, status: Status,
    teamLead: Option<Stamp>, dept: Option<Stamp>, deptComment: Option<string>,
    hr: Option<Stamp>, tenantAdmin: Option<Stamp>)

  datatype LedgerRow = LedgerRow(
    tenantId: Id, employeeId: Id, policyId: Id, entryType: EntryType, amount: int,
    isPending: bool, effectiveDate: int, referenceId: Option<Id>)

  datatype Comment = Comment(requestId: Id, authorId: Id, text: string)

  /** The three columns that every balance is kept per. */
  datatype Key = Key(tenantId: Id, employeeId: Id, policyId: Id)

  /** How a command fails. UniqueViolation and Inconsistent are the database's own errors: a primary
      key used twice, and a required relation that has no row. */
  datatype Error = NotFound | BadRequest | Forbidden | UniqueViolation | Inconsistent

  datatype Result<+T> = Ok(value: T) | Err(error: Error)
}
