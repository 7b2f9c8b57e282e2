/**
  Plain-object view of a stored document, as `toObject()` hands it to a
  schema's `toJSON` transform: each model maps its own paths to these values.
*/
module Documents {

  /**
    A field value. `Date(day)` is a stored date at midnight of `day`;
    `DayText(day)` is the `YYYY-MM-DD` text that names that day.
  */
  datatype Value =
    | Str(text: string)
    | Num(number: int)
    | Ref(id: nat)
    | Date(day: int)
    | DayText(day: int)
}
