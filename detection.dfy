/** The detection record that flows from the normaliser through the filter,
    the clusterer and the resolver. */
module Detection {

  /** An integer pixel coordinate in original-image space. */
  datatype Point = Point(x: int, y: int)

  /** One recognised label: its text, the recogniser's confidence, the two
      box corners kept after rescaling, and the enhancement parameters
      (contrast `alpha`, brightness `beta`) of the run that produced it. */
  datatype Record = Record(
    text: string,
    score: real,
    topLeft: Point,
    bottomRight: Point,
    alpha: real,
    beta: real)
}
