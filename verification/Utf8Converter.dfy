/** The converter that writes the log as UTF-8 (UTF8Converter.h): narrow text is taken as it is. */
module Utf8Converter {
  import opened CsvFormatter

  /** The byte order mark before the header. */
  const BOM: string := "\U{EF}\U{BB}\U{BF}"

  /** `Converter::header(Formatter::header())`, the first bytes of every file. */
  const FILE_HEADER: string := BOM + HEADER
}
