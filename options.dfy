/** The optional value the scraper uses for Python's `None`. */
module Options {

  datatype Option<+T> = None | Some(value: T)
}
