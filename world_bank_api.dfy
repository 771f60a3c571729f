/**
 * What the two World Bank scripts share: the two indicators they request and
 * the shape of a decoded indicator response, `[page_info, rows]`.
 */
module WorldBankApi {

  /** The two indicators: `NY.GDP.MKTP.CD` (GDP in current US$) and
      `SP.POP.TOTL` (total population). */
  datatype Indicator = Gdp | Population

  /** A decoded indicator response `[page_info, rows]`: `length` is the
      length of the outer JSON array and `rows` its second element (empty
      when there is none). */
  datatype Payload<E> = Payload(length: nat, rows: seq<E>)

  /** `len(data) < 2 or not data[1]`: a response with no rows to read. */
  predicate NoRows<E>(p: Payload<E>) {
    p.length < 2 || p.rows == []
  }
}
