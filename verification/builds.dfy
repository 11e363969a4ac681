/** The two programs this project speaks about. */
module Builds {
  /** Shipped follows the C code wherever it slips; Documented is what the headers, the
      README and DWARF 5 promise. Every slip is one branch on this switch, and nothing else
      differs between the two. */
  datatype Build = Shipped | Documented
}
