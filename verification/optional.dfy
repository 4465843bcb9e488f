/** The Some/None datatype used wherever the program can reject its input
    (a CSV row that is skipped, a number `std::stoi` refuses, a JSON field
    that is absent). */
module Optional {
  datatype Option<+T> = None | Some(value: T)
}
