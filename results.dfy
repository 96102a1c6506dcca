/** The one exception the core can raise on its own: an index outside the
    valid range, thrown by the point indexers, the compass tables and the
    array accessors. A call that throws is modelled as returning it. */
module Results {

  datatype Result<T> = Ok(value: T) | IndexOutOfRange
}
