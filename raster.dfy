/**
 * Images reduced to what the cache logic depends on: their size and where
 * they came from. Pixel data, decoding and the resampling filter are not
 * modelled.
 */
module Raster {

  /** Width and height in pixels of a raster file. */
  datatype Size = Size(width: nat, height: nat)

  /**
   * An image in memory: a raster opened from `path`, or the resize of another
   * image to `width` x `height`. Resizing is deterministic, so two resizes of
   * the same image to the same size are the same value.
   */
  datatype Image =
    | Source(path: string, width: nat, height: nat)
    | Resized(origin: Image, width: nat, height: nat)

  /** The files visible to the server, with the size of each raster. */
  datatype Disk = Disk(files: map<string, Size>)

  /** Every raster on disk has at least one pixel in each direction. */
  predicate ValidDisk(disk: Disk)
  {
    forall p :: p in disk.files ==> disk.files[p].width >= 1 && disk.files[p].height >= 1
  }

  /** Opening an existing raster file (app.py:111, 126). */
  function Open(disk: Disk, path: string): (img: Image)
    requires path in disk.files
    ensures img.Source? && img.path == path
    ensures ValidDisk(disk) ==> img.width >= 1 && img.height >= 1
  {
    Source(path, disk.files[path].width, disk.files[path].height)
  }

  /** Pillow's resize of `img` to `width` x `height` (app.py:261). */
  function Resize(img: Image, width: nat, height: nat): (r: Image)
    ensures r.width == width && r.height == height
  {
    Resized(img, width, height)
  }
}
