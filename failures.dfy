/** The points at which main.py stops with an uncaught exception. */
module Failures {

  datatype Failure =
      /** `pkgname, path = font.split('\t')` did not find exactly two fields
          (ValueError); count is how many there were. */
    | FieldCount(line: string, count: nat)
      /** `re.search(r'/(.*)\s', ...)` found nothing and `.group(1)` was taken of
          None (AttributeError). */
    | NoPackageName(line: string)
      /** The fc-query output for the folder had no line at index 1 (IndexError). */
    | NoFamilyLine(dir: string)
}
