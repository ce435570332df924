/** The exceptions `loadPeopleFromCsv` throws, one constructor per message
    shape; every one of them aborts the whole load. */
module Errors {
  import opened Wrappers

  datatype LoadError =
      /** "Line N: expected 6 columns, got K. Line: <trimmed line>" */
    | ColumnCount(lineNo: int, got: nat, line: string)
      /** "Line N: bad <field> = <raw>" from `parseInt` and `parseDouble` */
    | BadValue(lineNo: int, field: string, raw: string)
      /** "Line N: bad birthDate (expected dd.MM.yyyy) = <raw>" */
    | BadBirthDate(lineNo: int, raw: string)
      /** "Unknown gender: <raw>" from `Gender.parse`, which knows no line number */
    | UnknownGender(raw: string)
  {
    /** The line number the message cites, if it cites one. */
    function LineNo(): Option<int> {
      match this
      case ColumnCount(n, _, _) => Some(n)
      case BadValue(n, _, _) => Some(n)
      case BadBirthDate(n, _) => Some(n)
      case UnknownGender(_) => None
    }
  }
}
