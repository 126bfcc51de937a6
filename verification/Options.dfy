/** Sizes and return codes that several files share (options.h.in, instance.h). */
module Options {
  const FILEBUF := 4096
  const PATH_LEN := 1024

  const OK_CREATED := 1
  const OK_NOCONTENT := 2
  const ERR_BRKPIPE := -1
  const ERR_FILENOTFOUND := -2
  const ERR_NOMEM := -3
  const ERR_NOTHTTP := -6
  const ERR_NODATA := -7
  const ERR_FORBIDDEN := -9
  const ERR_PRECONDITION_FAILED := -14
  const ERR_RANGE_NOT_SATISFIABLE := -15
}
