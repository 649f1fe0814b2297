// Optional values, and the failures the codec reports in place of the
// exceptions Huffman_RSA_Fernet.py raises.

module Outcomes {

  datatype Option<+T> = None | Some(value: T)

  datatype Error =
    | EmptyInput            // heapq.heappop on an empty heap in make_codes: IndexError
    | UnknownSymbol(value: int)  // self.codes[value] in encode_arr: KeyError
    | EmptyBitstream        // int("", 2) on an empty compressed string: ValueError

  datatype Result<+T> = Success(value: T) | Failure(error: Error)
}
