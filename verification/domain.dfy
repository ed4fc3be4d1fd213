/** Values shared by every part of the model: the optional and fallible
    wrappers used in place of JavaScript's `null`/`undefined` and thrown
    errors, and the country record as the reference endpoint delivers it. */
module Domain {

  /** `null` / `undefined` versus a present value. */
  datatype Option<+T> = None | Some(value: T)

  /** A settled request: a value, or the `message` of the error it raised. */
  datatype Result<+T> = Ok(value: T) | Err(message: string)

  /** JavaScript truthiness of an optional string: absent and `""` are falsy. */
  predicate Truthy(s: Option<string>)
  {
    s.Some? && s.value != ""
  }

  /** One entry of a country's `currencies` object. Either field may be
      missing from the remote record; a template literal then prints it as
      `undefined`. */
  datatype Currency = Currency(name: Option<string>, symbol: Option<string>)

  /** The fields of a country record that the modelled code reads.
      `currencies` is `None` when the record has no `currencies` object;
      otherwise it lists the object's values in key order. */
  datatype Country = Country(
    common: string,
    official: string,
    population: nat,
    currencies: Option<seq<Currency>>
  )
}
