/** The `departments` table (Department.py). */
module Departments {

  /** One department row. The datatype constructor plays the part of
      `Department.__init__`: each argument is stored in the field of the same
      name, the `chair_name` argument in `chairName`. `name` is the primary
      key; every column is declared non-null, which a Dafny string always is. */
  datatype Department = Department(
    name: string,
    abbreviation: string,
    chairName: string,
    building: string,
    office: int,
    description: string)

  /** `Department.__init__` with its keyword arguments: every argument is
      stored in the field of the same name, and `chair_name` in `chairName`. */
  function NewDepartment(name: string, abbreviation: string, chair_name: string,
                         building: string, office: int, description: string): (d: Department)
    ensures d.name == name && d.abbreviation == abbreviation && d.chairName == chair_name
    ensures d.building == building && d.office == office && d.description == description
  {
    Department(name, abbreviation, chair_name, building, office, description)
  }

  /** Declared column widths (VARCHAR lengths). */
  const NameWidth := 50
  const AbbreviationWidth := 6
  const ChairNameWidth := 80
  const BuildingWidth := 10
  const DescriptionWidth := 80

  /** Every string column fits its declared width. */
  predicate FitsColumns(d: Department) {
    && |d.name| <= NameWidth
    && |d.abbreviation| <= AbbreviationWidth
    && |d.chairName| <= ChairNameWidth
    && |d.building| <= BuildingWidth
    && |d.description| <= DescriptionWidth
  }

  /** Two rows differ on all four candidate keys: departments_uk_01
      (abbreviation), departments_uk_02 (chair name), departments_uk_03
      (building and office together) and departments_uk_04 (description).
      Two departments may share a building, or an office number, not both. */
  predicate CandidateKeysDiffer(a: Department, b: Department) {
    && a.abbreviation != b.abbreviation
    && a.chairName != b.chairName
    && (a.building != b.building || a.office != b.office)
    && a.description != b.description
  }

  /** Two rows differ on the primary key. */
  predicate PrimaryKeyDiffers(a: Department, b: Department) {
    a.name != b.name
  }
}
