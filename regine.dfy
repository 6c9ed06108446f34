/**
 * A row of the Regine watercourse index (`INDEX_regine.json`), as both
 * resolvers read it. Absent or non-string name fields are the empty string
 * (the resolvers treat both alike); a coordinate is `Some` exactly when the
 * stored value is numeric (an int, a float or a bool, as Python's
 * `isinstance(x, (int, float))` sees it).
 */
module Regine {
  import opened Opt

  datatype Entry = Entry(
    vassdragsnr: string,
    navn: string,
    navnNormalisert: string,
    lat: Option<real>,
    long: Option<real>)
}
