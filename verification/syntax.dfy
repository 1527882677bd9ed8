/** The structured form a loaded program takes, and the ways a load can fail. */
module Syntax {

  /** One instruction; a register is a non-negative index, a label is text. */
  datatype Instr =
    | Halt
    | Inc(r: nat, next: string)
    | Dec(r: nat, nz: string, z: string)

  /** The instruction table: each label names one instruction. */
  type Program = map<string, Instr>

  /** One constructor per exit status of the loader, plus the two additions noted in README. */
  datatype LoadError =
    | EmptyProgram            // no significant line at all
    | ConfigFormatError       // exit status 2
    | InstructionFormatError  // exit status 3
    | DuplicateLabelError     // exit status 4
    | OperationFormatError    // exit status 5
    | UnknownOperationError   // exit status 6
    | ArityError              // wrong number of targets for inc or dec
}
