/** What a listener waits for on a handle. */
module WaitModes {
  datatype WaitMode = Read | Write
}
