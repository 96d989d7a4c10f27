/** Failure-carrying values for the cover pipeline. */
module Results {

  /** The ways a cover generation can fail. `UnsupportedTrimSize` is the
      `ValueError` for a trim name outside the catalogue; `UnreadableImage`
      is any image whose pixel size makes the fitting arithmetic divide by
      zero (the only image failure the model can see). */
  datatype CoverError =
    | UnsupportedTrimSize(name: string)
    | UnreadableImage

  datatype Result<+T> = Ok(value: T) | Err(error: CoverError)

  datatype Option<+T> = None | Some(value: T)
}
