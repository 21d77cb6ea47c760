/** The numbers of param.h, fs.h, stat.h, mmu.h and the other headers that the models use, side by side. */
module KernelNumbers {
  import BlockWords
  import Directory
  import DirectoryOps
  import DiskLayout
  import FileModel
  import FileState
  import FileWrite
  import Log
  import Namei
  import PageTable
  import Path
  import Pipe
  import ShellGrammar
  import Vm

  /** BSIZE, the twelve direct and 128 indirect blocks of a file, inodes and bitmap bits to a block, the directory entry,
      the root, the types. */
  lemma FileSystemNumbers()
    ensures BlockWords.BSIZE == 512 && FileModel.NDIRECT == 12 && FileModel.NINDIRECT == 128
    ensures FileModel.SLOTS == 12 + 1 + 128 && FileModel.MAXBYTES == (12 + 128) * 512
    ensures DiskLayout.IPB == 8 && DiskLayout.BPB == 4096 && Directory.DIRSIZ == 14 && Directory.ESIZE == 16
    ensures Namei.ROOTINO == 1 && Path.SLASH == 47 && DirectoryOps.T_DIR == 1 && FileState.T_DEV == 3
  {
  }

  /** MAXOPBLOCKS, LOGSIZE, NBUF, and the chunk of filewrite. */
  lemma LogNumbers()
    ensures Log.MAXOPBLOCKS == 10 && Log.LOGSIZE == 30 && Log.NBUF == 30
    ensures FileWrite.CHUNK == (30 - 1 - 1 - 2) / 2 * 512 == 6656
  {
  }

  /** Pages, page tables, KERNBASE, the pipe and the shell's argv. */
  lemma OtherNumbers()
    ensures PageTable.PGSIZE == 4096 && PageTable.NENTRIES == 1024 && Vm.KERNBASE == 0x8000_0000
    ensures PageTable.USERPAGES == 0x8000_0000 / 4096 && PageTable.ALLPAGES == 0x1_0000_0000 / 4096
    ensures Pipe.PIPESIZE == 512 && ShellGrammar.MAXARGS == 10
  {
  }
}
