/** The three dimensions of a kernel's range. */
module WorkItems {
  datatype Dim = X | Y | Z

  function Index(d: Dim): nat { match d case X => 0 case Y => 1 case Z => 2 }
}
