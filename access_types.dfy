/** The access vocabulary shared by the variable analysis and the command analysis
    (src/nnet3/nnet-analyze.h). */
module AccessTypes {

  datatype AccessType = ReadAccess | WriteAccess | ReadWriteAccess

  /** What one command reads and writes, as variable indexes, and whether it has an effect beyond
      the matrices (updating a component's parameters). */
  datatype CommandAttributes =
    CommandAttributes(variablesRead: seq<int>, variablesWritten: seq<int>, hasSideEffects: bool)

  const NoAttributes := CommandAttributes([], [], false)
}
