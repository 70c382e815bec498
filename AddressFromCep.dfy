/**
 * `getAddressFromCEP`: validate and normalise the CEP, look it up in the
 * directory, map the answer. The directory is the parameter `directory`, from
 * the 8-character key to the answer's data; the format rule is `schema`.
 */
module AddressFromCep {
  import opened Wrappers
  import opened Errors
  import opened Cep
  import opened ViaCep

  /** What `getAddressFromCEP` returns or throws, as a function of its inputs. */
  function Resolve(cep: Option<string>, schema: string -> bool, directory: string -> ViaCepData)
    : (r: Result<ViaCepNewAddress, Error>)
    ensures r.Err? ==> r.error == NotFound
    ensures r.Ok? <==> LookupKey(cep, schema).Ok? && MapResponse(directory(LookupKey(cep, schema).value)).Ok?
    ensures r.Ok? ==> CarriesAddress(r.value, directory(LookupKey(cep, schema).value).address)
  {
    match LookupKey(cep, schema)
    case Err(e) => Err(e)
    case Ok(key) => MapResponse(directory(key))
  }

  /**
   * Lines 10-38, step by step: `newCep` first holds the canonical form the
   * format rule sees, then the lookup key.
   */
  method GetAddressFromCep(cep: Option<string>, schema: string -> bool, directory: string -> ViaCepData)
    returns (r: Result<ViaCepNewAddress, Error>)
    ensures cep.None? || |cep.value| < 8 || |cep.value| > 9 ==> r == Err(NotFound)
    ensures r == Resolve(cep, schema, directory)
  {
    if cep.None? || |cep.value| < 8 || |cep.value| > 9 {
      return Err(NotFound);
    }
    var raw := cep.value;
    var newCep := raw;
    if |newCep| == 8 {
      newCep := raw[..5] + "-" + raw[5..];
    }
    var formatOk := schema(newCep);
    newCep := RemoveFirstHyphen(raw);
    if |newCep| != 8 || !formatOk {
      return Err(NotFound);
    }
    var data := directory(newCep);
    r := MapResponse(data);
  }

  /** A CEP the validation rejects ends in NotFound whatever the directory would have said. */
  lemma RejectedBeforeLookup(cep: Option<string>, schema: string -> bool, d1: string -> ViaCepData, d2: string -> ViaCepData)
    requires LookupKey(cep, schema).Err?
    ensures Resolve(cep, schema, d1) == Resolve(cep, schema, d2) == Err(NotFound)
  {
  }

  /** An accepted CEP is looked up under its key and nothing else. */
  lemma LookupUsesKey(cep: Option<string>, schema: string -> bool, d1: string -> ViaCepData, d2: string -> ViaCepData)
    requires LookupKey(cep, schema).Ok?
    requires d1(LookupKey(cep, schema).value) == d2(LookupKey(cep, schema).value)
    ensures Resolve(cep, schema, d1) == Resolve(cep, schema, d2)
  {
  }

  /** With the ddddd-ddd rule, `dddddddd` and `ddddd-ddd` resolve to the same answer. */
  lemma {:induction false} BothSpellingsResolveAlike(d: string, directory: string -> ViaCepData)
    requires |d| == 8 && AllDigits(d)
    ensures Resolve(Some(d), IsCepFormat, directory) == MapResponse(directory(d))
    ensures Resolve(Some(InsertHyphen(d)), IsCepFormat, directory) == MapResponse(directory(d))
  {
    HyphenIsOptional(d);
  }
}
