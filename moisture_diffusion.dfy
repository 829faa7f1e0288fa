/**
  The moisture diffusion system: the six-neighbour moisture exchange is
  recorded for every live cell, the command buffer is played back, and only
  then are the moisture buffers folded into the moistures.
 */
module MoistureDiffusionSystem {
  import opened Vectors
  import opened GlobalConfig
  import opened CellWorld
  import opened Diffusion
  import opened PublicJobs

  /**
    `OnUpdate`: `MoistureDiffusionJob` over the live cells in query order
    `order`, playback of its buffer, then `MoistureUpdateJob`.
   */
  method MoistureDiffusionUpdate(w: World, order: seq<Entity>, configs: seq<CellConfig>, coefficient: real)
    requires w.Valid()
    modifies w`cells
    ensures w.Valid()
    ensures w.cells == MoisturesUpdated(Playback(old(w.cells), RecordAll(w.cellMap, old(w.cells), configs, coefficient, Moisture, order)))
  {
    var ecb := RecordDiffusion(w.cellMap, w.cells, configs, coefficient, Moisture, order);
    PlaybackKeepsMap(w.cellMap, w.cells, ecb);
    w.cells := Playback(w.cells, ecb);
    UpdatesKeepMap(w.cellMap, w.cells, []);
    UpdateMoistures(w);
  }
}
