/**
 * The libplctag status codes that the resource utility returns or passes on.
 * The numeric values live in lib/libplctag.h, which is not part of this model,
 * so each code is a constructor; `ErrOther` stands for any other status that a
 * collaborator (the mutex or the hashtable) may report.
 */
module PlcTag {

  datatype Status =
    | StatusOk
    | ErrNullPtr
    | ErrNotFound
    | ErrCreate
    | ErrOther(code: int)
}
