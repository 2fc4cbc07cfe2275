/** The constants of usbhostfs/usbhostfs.h that both ends share. */
module HostFs {

  const HOSTFS_MAGIC := 0x782F_0812
  const ASYNC_MAGIC := 0x782F_0813
  const BULK_MAGIC := 0x782F_0814

  const HOSTFS_PATHMAX := 4096
  const BLOCK := 0x1_0000      // HOSTFS_MAX_BLOCK, and sizeof(tx_buf)
  const BULK_MAX := 0x10_0000  // HOSTFS_BULK_MAXWRITE
  const GET_INFO := 0x0242_5818
  const MAX_ASYNC_CHANNELS := 8
}
