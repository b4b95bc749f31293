/** What a serializer's character field does with a submitted string before
    the code of the views sees it: strip surrounding whitespace, refuse a
    blank value unless blanks are allowed, refuse a value longer than the
    column and refuse one holding a NUL character. */
module Fields {
  import opened Outcomes
  import opened Text

  /** A column limit, or none for a text column. */
  datatype Limit = Unlimited | AtMost(n: nat)

  predicate Fits(s: string, limit: Limit)
  {
    limit.Unlimited? || |s| <= limit.n
  }

  /** A field the request must carry: its value, or the "required" error
      naming it. */
  function Present<T>(field: string, v: Option<T>): (r: Result<T>)
    ensures r.Ok? <==> v.Some?
    ensures r.Ok? ==> r.value == v.value
    ensures r.Err? ==> r.error == Validation(Required(field))
  {
    if v.Some? then Ok(v.value) else Err(Validation(Required(field)))
  }

  /** The value a character field accepts, given the raw input. */
  predicate Acceptable(raw: string, limit: Limit, allowBlank: bool)
  {
    && (allowBlank || !IsBlank(raw))
    && Fits(Trim(raw), limit)
    && '\0' !in Trim(raw)
  }

  /** A character field: the cleaned value, or the validation error naming
      the field. */
  function CleanChar(field: string, raw: string, limit: Limit, allowBlank: bool): (r: Result<string>)
    ensures r.Ok? <==> Acceptable(raw, limit, allowBlank)
    ensures r.Ok? ==> r.value == Trim(raw) && (allowBlank || r.value != [])
    ensures r.Err? ==> r.error in {Validation(Blank(field)), Validation(TooLong(field)), Validation(Invalid(field))}
  {
    var value := Trim(raw);
    if !allowBlank && value == [] then Err(Validation(Blank(field)))
    else if !Fits(value, limit) then Err(Validation(TooLong(field)))
    else if '\0' in value then Err(Validation(Invalid(field)))
    else Ok(value)
  }

  /** An optional character field of a partial update: absent stays absent. */
  function CleanOptional(field: string, raw: Option<string>, limit: Limit, allowBlank: bool): (r: Result<Option<string>>)
    ensures raw.None? ==> r == Ok(None)
    ensures raw.Some? ==> (r.Ok? <==> Acceptable(raw.value, limit, allowBlank))
    ensures raw.Some? && r.Ok? ==> r.value == Some(Trim(raw.value))
    ensures r.Err? ==> r.error in {Validation(Blank(field)), Validation(TooLong(field)), Validation(Invalid(field))}
  {
    match raw
    case None => Ok(None)
    case Some(v) =>
      var clean :- CleanChar(field, v, limit, allowBlank);
      Ok(Some(clean))
  }
}
