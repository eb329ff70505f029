/** The Java exceptions the core throws or lets through, as values. */
module Exceptions {
  import opened CsvExceptions

  /** Why a `ConversionException` was thrown; each reason has its own message. */
  datatype ConversionReason =
    | InvalidThousandSeparator
    | InvalidDecimalSeparator
    | InvalidCharacters
    | InvalidCurrency
    | UnparsableTemporal(format: string)

  datatype Exception =
    | ConversionException(reason: ConversionReason, source: string)
    | ClassCastException
    | NumberFormatException
    | IllegalArgumentException(message: string)
    | NullPointerException
    | CsvExtraction(csv: CsvExtractionException)
    | ExtractionDataAccess

  /** The message text of each `ConversionException`. */
  function ConversionMessage(reason: ConversionReason, source: string): string {
    match reason
    case InvalidThousandSeparator => "Value contains invalid thousand separator: " + source
    case InvalidDecimalSeparator => "Value contains invalid decimal separator: " + source
    case InvalidCharacters => "Value contains invalid characters: " + source
    case InvalidCurrency => "Invalid currency: " + source
    case UnparsableTemporal(format) =>
      "Value cannot be converted to a temporal with format \"" + format + "\": " + source
  }
}
