/** Messages between ranks. */
module Messages {
  /** What MPI matches a receive with: source, destination and tag. */
  datatype Envelope = Envelope(src: int, dst: int, tag: int)

  type Mail = map<Envelope, seq<real>>
}
