/** The interface every table implements (src/HashTable.java): insert, search,
    the two counters, and the statistics whose defaults the open-addressing
    tables inherit. */
module HashTable {

  /** What `inserir` did. The source returns nothing; the outcome makes the
      silent cases observable: a duplicate leaves the table as it was, and an
      open-addressing insert that runs out of attempts drops the record. */
  datatype Outcome = Inserted | AlreadyPresent | Rejected

  /** Default `getMaiorLista`: the largest bucket of a table without buckets. */
  const DefaultLargestList: nat := 0

  /** Default `getTresMaioresListas`: no bucket sizes. */
  const DefaultTopThree: seq<int> := []

  /** Default `getGaps`: [smallest gap, largest gap, mean gap], all zero. */
  const DefaultGaps: seq<int> := [0, 0, 0]
}
