/** The optional value used wherever the pipeline may find nothing: a search
    without a match, a fetch that returned no usable content, a request
    without a file part. */
module Options {

  datatype Option<+T> = None | Some(value: T)
}
