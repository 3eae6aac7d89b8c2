/** What the rest of the kernel knows of processes (kernel/include/process.h). */
module ProcessTable {
  const MAX_PROC := 32

  datatype Status = Running | Waiting | Sleeping
}
