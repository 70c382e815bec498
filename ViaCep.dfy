/**
 * The ViaCEP directory's answer and the mapping of it into the address
 * fragment `getAddressFromCEP` returns. The request itself is not modelled:
 * the answer's `data` is an input value.
 */
module ViaCep {
  import opened Wrappers
  import opened Errors

  /** The JavaScript values the `erro` marker can hold in a JSON body. */
  datatype JsValue = Undefined | Null | Bool(b: bool) | Num(n: int) | Str(s: string)

  /** `Boolean(v)`. */
  predicate Truthy(v: JsValue)
  {
    match v
    case Undefined => false
    case Null => false
    case Bool(b) => b
    case Num(n) => n != 0
    case Str(s) => s != ""
  }

  /** The address ViaCEP returns for a known CEP. */
  datatype ViaCepAddress = ViaCepAddress(
    cep: string,
    logradouro: string,
    complemento: string,
    bairro: string,
    localidade: string,
    uf: string,
    ibge: string,
    ddd: string)

  /**
   * `result.data`: null or undefined (no data at all), some other falsy value
   * (the empty string of an empty body), or a JSON object, which may carry
   * the `erro` marker.
   */
  datatype ViaCepData =
    | Nullish
    | FalsyBody
    | Body(erro: JsValue, address: ViaCepAddress)

  /** The fragment returned to callers: ViaCEP's names, with `localidade` as `cidade`. */
  datatype ViaCepNewAddress = ViaCepNewAddress(
    logradouro: string,
    complemento: string,
    bairro: string,
    cidade: string,
    uf: string)

  /** Whether the five fields of `f` are those ViaCEP returned in `a`. */
  predicate CarriesAddress(f: ViaCepNewAddress, a: ViaCepAddress)
  {
    && f.logradouro == a.logradouro
    && f.complemento == a.complemento
    && f.bairro == a.bairro
    && f.cidade == a.localidade
    && f.uf == a.uf
  }

  /**
   * Lines 27-38 as written: `erro` is destructured out of `result.data` BEFORE
   * the `!result.data` test, so null or undefined data throws a TypeError and
   * never reaches the NotFound branch.
   */
  function MapResponseAsWritten(data: ViaCepData): (r: Result<ViaCepNewAddress, Error>)
    ensures data.Nullish? ==> r == Err(TypeError)
    ensures data.FalsyBody? || (data.Body? && Truthy(data.erro)) ==> r == Err(NotFound)
    ensures data.Body? && !Truthy(data.erro) ==> r.Ok? && CarriesAddress(r.value, data.address)
  {
    match data
    case Nullish => Err(TypeError)
    case FalsyBody => Err(NotFound)
    case Body(erro, a) =>
      if Truthy(erro) then Err(NotFound)
      else Ok(ViaCepNewAddress(a.logradouro, a.complemento, a.bairro, a.localidade, a.uf))
  }

  /** The input that exposes the discrepancy: null data. */
  lemma NullDataThrows()
    ensures MapResponseAsWritten(Nullish) == Err(TypeError)
    ensures MapResponse(Nullish) == Err(NotFound)
  {
  }

  /**
   * Lines 27-38 as intended: missing data, falsy data or a truthy `erro` give
   * NotFound; any other body gives the five-field fragment.
   */
  function MapResponse(data: ViaCepData): (r: Result<ViaCepNewAddress, Error>)
    ensures r.Err? <==> !data.Body? || Truthy(data.erro)
    ensures r.Err? ==> r.error == NotFound
    ensures r.Ok? ==> CarriesAddress(r.value, data.address)
  {
    if !data.Body? || Truthy(data.erro) then Err(NotFound)
    else
      var a := data.address;
      Ok(ViaCepNewAddress(a.logradouro, a.complemento, a.bairro, a.localidade, a.uf))
  }

  /** The corrected mapper differs from the code only where the code throws a TypeError. */
  lemma CorrectionOnlyTouchesNullData(data: ViaCepData)
    ensures MapResponseAsWritten(data).Err? && MapResponseAsWritten(data).error == TypeError <==> data.Nullish?
    ensures !data.Nullish? ==> MapResponse(data) == MapResponseAsWritten(data)
  {
  }

  /**
   * The fragment depends on the five mapped fields only: ViaCEP's `cep`, `ibge`
   * and `ddd` and a falsy `erro` never reach it.
   */
  lemma FragmentIgnoresOtherFields(e1: JsValue, e2: JsValue, a1: ViaCepAddress, a2: ViaCepAddress)
    requires !Truthy(e1) && !Truthy(e2)
    requires a1.logradouro == a2.logradouro && a1.complemento == a2.complemento
    requires a1.bairro == a2.bairro && a1.localidade == a2.localidade && a1.uf == a2.uf
    ensures MapResponse(Body(e1, a1)) == MapResponse(Body(e2, a2))
  {
  }

  /** Every fragment is the image of some ViaCEP body: nothing is lost in the renaming. */
  lemma FragmentRoundTrip(f: ViaCepNewAddress, cep: string, ibge: string, ddd: string)
    ensures MapResponse(Body(Bool(false), ViaCepAddress(cep, f.logradouro, f.complemento, f.bairro, f.cidade, f.uf, ibge, ddd))) == Ok(f)
  {
  }
}
